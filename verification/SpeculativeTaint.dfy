/**
 * Which loads from non-constant addresses may reach which instructions: a round-based fixpoint over the
 * instructions in layout order, with a test that skips a store whose value did not change in the round.
 */
module SpeculativeTaint {
  import opened Graphs

  /**
   * An instruction, by what it does to taint. Operands are given by the index of the instruction that
   * computes them. `feeds` are the constant-address loads that may read what the store writes.
   */
  datatype Op =
    | NcaLoad
    | CaLoad
    | Store(value: nat, feeds: set<nat>)
    | Flow(operands: seq<nat>)
    | Other

  type Program = seq<Op>

  /** For each instruction the loads that taint it. */
  type Taints = seq<set<nat>>

  ghost predicate WellFormedProgram(p: Program) {
    forall i :: 0 <= i < |p| ==>
      match p[i]
      case Store(v, feeds) => v < |p| && forall l :: l in feeds ==> l < |p| && p[l].CaLoad?
      case Flow(ops) => forall k :: 0 <= k < |ops| ==> ops[k] < |p|
      case _ => true
  }

  // ---------------------------------------------------------------------------------
  // The meaning: chains of uses and of loads that read what a store wrote

  ghost predicate Feeds(p: Program, e: Edge) {
    || (e.dst < |p| && p[e.dst].Flow? && e.src in p[e.dst].operands)
    || exists s :: 0 <= s < |p| && p[s].Store? && p[s].value == e.src && e.dst in p[s].feeds
  }

  /** A chain from i to j: each element feeds the next. */
  ghost predicate Chain(p: Program, c: seq<nat>, i: nat, j: nat) {
    && |c| >= 1 && c[0] == i && c[|c| - 1] == j
    && forall k :: 0 <= k < |c| - 1 ==> Feeds(p, Hop(c, k))
  }

  ghost predicate Reaches(p: Program, l: nat, i: nat) {
    l < |p| && p[l].NcaLoad? && exists c :: Chain(p, c, l, i)
  }

  lemma ReachesFurther(p: Program, l: nat, i: nat, j: nat)
    requires Reaches(p, l, i) && Feeds(p, Edge(i, j))
    ensures Reaches(p, l, j)
  {
    var c :| Chain(p, c, l, i);
    var c' := c + [j];
    forall k | 0 <= k < |c'| - 1
      ensures Feeds(p, Hop(c', k))
    {
      assert k < |c| - 1 ==> Hop(c', k) == Hop(c, k);
    }
    assert Chain(p, c', l, j);
  }

  // ---------------------------------------------------------------------------------
  // One round

  function UnionOf(t: Taints, ops: seq<nat>): set<nat>
    requires forall k :: 0 <= k < |ops| ==> ops[k] < |t|
  {
    if ops == [] then {} else UnionOf(t, ops[..|ops| - 1]) + t[ops[|ops| - 1]]
  }

  /** The taint of a stored value goes to all loads that may read it. */
  function FeedAll(t: Taints, orgs: set<nat>, feeds: set<nat>): (r: Taints)
    ensures |r| == |t|
  {
    seq(|t|, i requires 0 <= i < |t| => if i in feeds then t[i] + orgs else t[i])
  }

  /**
   * What instruction i does, where `bak` are the taints at the start of the round. With `skip`, as in the
   * code, a store does nothing unless the taint of its value has changed since then.
   */
  function Step(p: Program, skip: bool, bak: Taints, t: Taints, i: nat): (r: Taints)
    requires WellFormedProgram(p) && i < |p| == |t| == |bak|
    ensures |r| == |t|
  {
    match p[i]
    case NcaLoad => t[i := t[i] + {i}]
    case Store(v, feeds) => if skip && t[v] == bak[v] then t else FeedAll(t, t[v], feeds)
    case Flow(ops) => t[i := t[i] + UnionOf(t, ops)]
    case _ => t
  }

  /** The first m instructions of a round. */
  function Partial(p: Program, skip: bool, bak: Taints, m: nat): (r: Taints)
    requires WellFormedProgram(p) && m <= |p| == |bak|
    ensures |r| == |bak|
  {
    if m == 0 then bak else Step(p, skip, bak, Partial(p, skip, bak, m - 1), m - 1)
  }

  function Round(p: Program, skip: bool, t: Taints): (r: Taints)
    requires WellFormedProgram(p) && |p| == |t|
    ensures |r| == |t|
  {
    Partial(p, skip, t, |p|)
  }

  function Rounds(p: Program, skip: bool, k: nat): (r: Taints)
    requires WellFormedProgram(p)
    ensures |r| == |p|
  {
    if k == 0 then seq(|p|, i => {}) else Round(p, skip, Rounds(p, skip, k - 1))
  }

  ghost predicate Below(t: Taints, t': Taints) {
    |t| == |t'| && forall i :: 0 <= i < |t| ==> t[i] <= t'[i]
  }

  lemma StepGrows(p: Program, skip: bool, bak: Taints, t: Taints, i: nat)
    requires WellFormedProgram(p) && i < |p| == |t| == |bak|
    ensures Below(t, Step(p, skip, bak, t, i))
  {
  }

  lemma {:induction false} PartialGrows(p: Program, skip: bool, bak: Taints, m: nat, m': nat)
    requires WellFormedProgram(p) && m <= m' <= |p| == |bak|
    ensures Below(Partial(p, skip, bak, m), Partial(p, skip, bak, m'))
    decreases m'
  {
    if m < m' {
      PartialGrows(p, skip, bak, m, m' - 1);
      StepGrows(p, skip, bak, Partial(p, skip, bak, m' - 1), m' - 1);
    }
  }

  // ---------------------------------------------------------------------------------
  // Whatever is found is there

  ghost predicate Sound(p: Program, t: Taints) {
    |t| == |p| && forall i, l :: 0 <= i < |p| && l in t[i] ==> Reaches(p, l, i)
  }

  lemma {:induction false} UnionComesFrom(t: Taints, ops: seq<nat>, l: nat)
    requires (forall k :: 0 <= k < |ops| ==> ops[k] < |t|)
    ensures l in UnionOf(t, ops) <==> exists k :: 0 <= k < |ops| && l in t[ops[k]]
  {
    if ops != [] {
      var n := |ops| - 1;
      UnionComesFrom(t, ops[..n], l);
      if l in UnionOf(t, ops[..n]) {
        var k :| 0 <= k < n && l in t[ops[..n][k]];
        assert l in t[ops[k]];
      }
      if k :| 0 <= k < |ops| && l in t[ops[k]] {
        assert k < n ==> l in t[ops[..n][k]];
      }
    }
  }

  lemma StepIsSound(p: Program, skip: bool, bak: Taints, t: Taints, i: nat)
    requires WellFormedProgram(p) && i < |p| == |t| == |bak| && Sound(p, t)
    ensures Sound(p, Step(p, skip, bak, t, i))
  {
    var r := Step(p, skip, bak, t, i);
    forall j, l | 0 <= j < |p| && l in r[j]
      ensures Reaches(p, l, j)
    {
      match p[i]
      case NcaLoad =>
        assert Chain(p, [i], i, i);
      case Store(v, feeds) =>
        if l !in t[j] {
          assert Feeds(p, Edge(v, j));
          ReachesFurther(p, l, v, j);
        }
      case Flow(ops) =>
        if l !in t[j] {
          UnionComesFrom(t, ops, l);
          var k :| 0 <= k < |ops| && l in t[ops[k]];
          ReachesFurther(p, l, ops[k], j);
        }
      case _ =>
    }
  }

  lemma {:induction false} PartialIsSound(p: Program, skip: bool, bak: Taints, m: nat)
    requires WellFormedProgram(p) && m <= |p| == |bak| && Sound(p, bak)
    ensures Sound(p, Partial(p, skip, bak, m))
  {
    if m > 0 {
      PartialIsSound(p, skip, bak, m - 1);
      StepIsSound(p, skip, bak, Partial(p, skip, bak, m - 1), m - 1);
    }
  }

  // ---------------------------------------------------------------------------------
  // When everything that is there is found

  /** Instruction j may add load l, which does reach j, to the taint of instruction v. */
  ghost predicate Brings(p: Program, j: nat, l: nat, v: nat)
    requires j < |p|
  {
    match p[j]
    case NcaLoad => j == l == v
    case Store(w, feeds) => v in feeds && Reaches(p, l, w)
    case Flow(ops) => j == v && exists k :: 0 <= k < |ops| && Reaches(p, l, ops[k])
    case _ => false
  }

  /** Nothing after a store in layout order brings a load to the taint of the stored value. */
  ghost predicate StoresComeLast(p: Program) {
    forall s, j, l :: 0 <= s < j < |p| && p[s].Store? ==> !Brings(p, j, l, p[s].value)
  }

  lemma StepBrings(p: Program, skip: bool, bak: Taints, t: Taints, i: nat, v: nat)
    requires WellFormedProgram(p) && i < |p| == |t| == |bak| && v < |p| && Sound(p, t)
    requires forall l :: !Brings(p, i, l, v)
    ensures Step(p, skip, bak, t, i)[v] == t[v]
  {
    var r := Step(p, skip, bak, t, i);
    forall l | l in r[v]
      ensures l in t[v]
    {
      assert !Brings(p, i, l, v);
      match p[i]
      case NcaLoad =>
      case Store(w, feeds) =>
        assert l in t[w] ==> Reaches(p, l, w);
      case Flow(ops) =>
        UnionComesFrom(t, ops, l);
        assert forall k :: 0 <= k < |ops| && l in t[ops[k]] ==> Reaches(p, l, ops[k]);
      case _ =>
    }
    StepGrows(p, skip, bak, t, i);
  }

  lemma {:induction false} NothingBrought(p: Program, skip: bool, bak: Taints, v: nat, m: nat, m': nat)
    requires WellFormedProgram(p) && m <= m' <= |p| == |bak| && v < |p| && Sound(p, bak)
    requires forall j, l :: m <= j < m' ==> !Brings(p, j, l, v)
    ensures Partial(p, skip, bak, m')[v] == Partial(p, skip, bak, m)[v]
    decreases m'
  {
    if m < m' {
      NothingBrought(p, skip, bak, v, m, m' - 1);
      PartialIsSound(p, skip, bak, m' - 1);
      StepBrings(p, skip, bak, Partial(p, skip, bak, m' - 1), m' - 1, v);
    }
  }

  /** What a store writes has reached all its readers. */
  ghost predicate StoresServed(p: Program, t: Taints)
    requires |t| == |p|
  {
    forall s, l :: 0 <= s < |p| && p[s].Store? && p[s].value < |p| && l in p[s].feeds && l < |p| ==> t[p[s].value] <= t[l]
  }

  lemma StoreServes(p: Program, skip: bool, bak: Taints, t: Taints, s: nat, l: nat)
    requires WellFormedProgram(p) && s < |p| == |t| == |bak| && p[s].Store? && l in p[s].feeds
    requires Below(bak, t) && StoresServed(p, bak)
    ensures Step(p, skip, bak, t, s)[p[s].value] <= Step(p, skip, bak, t, s)[l]
  {
    assert bak[p[s].value] <= bak[l] <= t[l];
  }

  /** If stores come last, a round with the test leaves no store behind. */
  lemma RoundServesStores(p: Program, skip: bool, bak: Taints)
    requires WellFormedProgram(p) && Sound(p, bak) && StoresServed(p, bak) && StoresComeLast(p)
    ensures StoresServed(p, Round(p, skip, bak))
  {
    var r := Round(p, skip, bak);
    forall s, l | 0 <= s < |p| && p[s].Store? && p[s].value < |p| && l in p[s].feeds && l < |p|
      ensures r[p[s].value] <= r[l]
    {
      var v := p[s].value;
      PartialGrows(p, skip, bak, 0, s);
      StoreServes(p, skip, bak, Partial(p, skip, bak, s), s, l);
      NothingBrought(p, skip, bak, v, s + 1, |p|);
      PartialGrows(p, skip, bak, s + 1, |p|);
    }
  }

  /** Without the test a round that changes nothing has served all stores. */
  lemma FixpointServesStores(p: Program, t: Taints)
    requires WellFormedProgram(p) && |t| == |p| && Round(p, false, t) == t
    ensures StoresServed(p, t)
  {
    forall s, l | 0 <= s < |p| && p[s].Store? && p[s].value < |p| && l in p[s].feeds && l < |p|
      ensures t[p[s].value] <= t[l]
    {
      FixpointIsStable(p, false, t, s);
      FixpointIsStable(p, false, t, s + 1);
    }
  }

  /** In a round that changes nothing no instruction changes anything. */
  lemma FixpointIsStable(p: Program, skip: bool, t: Taints, m: nat)
    requires WellFormedProgram(p) && |t| == |p| && Round(p, skip, t) == t && m <= |p|
    ensures Partial(p, skip, t, m) == t
  {
    PartialGrows(p, skip, t, 0, m);
    PartialGrows(p, skip, t, m, |p|);
    var s := Partial(p, skip, t, m);
    assert Below(t, s) && Below(s, t);
    forall i | 0 <= i < |p|
      ensures s[i] == t[i]
    {
      assert t[i] <= s[i] && s[i] <= t[i];
    }
    assert s == t;
  }

  lemma FixpointFlows(p: Program, skip: bool, t: Taints, i: nat)
    requires WellFormedProgram(p) && |t| == |p| && Round(p, skip, t) == t && i < |p|
    ensures p[i].NcaLoad? ==> i in t[i]
    ensures p[i].Flow? ==> forall o :: o in p[i].operands && o < |p| ==> t[o] <= t[i]
  {
    FixpointIsStable(p, skip, t, i);
    FixpointIsStable(p, skip, t, i + 1);
    if p[i].Flow? {
      forall o, l | o in p[i].operands && o < |p| && l in t[o]
        ensures l in t[i]
      {
        var k :| 0 <= k < |p[i].operands| && p[i].operands[k] == o;
        UnionComesFrom(t, p[i].operands, l);
      }
    }
  }

  lemma ChainInRange(p: Program, c: seq<nat>, i: nat, j: nat)
    requires WellFormedProgram(p) && Chain(p, c, i, j) && |c| >= 2
    ensures c[|c| - 2] < |p| && j < |p| && Chain(p, c[..|c| - 1], i, c[|c| - 2])
    ensures Feeds(p, Edge(c[|c| - 2], j))
  {
    var n := |c| - 1;
    assert Hop(c, n - 1) == Edge(c[n - 1], j);
    forall k | 0 <= k < n - 1
      ensures Feeds(p, Hop(c[..n], k))
    {
      assert Hop(c[..n], k) == Hop(c, k);
    }
  }

  /** A fixpoint that has served all stores holds the whole of every chain. */
  lemma {:induction false} ChainIsFound(p: Program, skip: bool, t: Taints, c: seq<nat>, l: nat, i: nat)
    requires WellFormedProgram(p) && |t| == |p| && Round(p, skip, t) == t && StoresServed(p, t)
    requires l < |p| && p[l].NcaLoad? && Chain(p, c, l, i)
    ensures i < |p| && l in t[i]
  {
    if |c| == 1 {
      FixpointFlows(p, skip, t, l);
    } else {
      var j := c[|c| - 2];
      ChainInRange(p, c, l, i);
      ChainIsFound(p, skip, t, c[..|c| - 1], l, j);
      if p[i].Flow? && j in p[i].operands {
        FixpointFlows(p, skip, t, i);
      } else {
        var s :| 0 <= s < |p| && p[s].Store? && p[s].value == j && i in p[s].feeds;
        assert t[p[s].value] <= t[i];
      }
    }
  }

  /** The taints are exactly the loads that reach each instruction. */
  ghost predicate Exact(p: Program, t: Taints) {
    |t| == |p| && forall i, l :: 0 <= i < |p| ==> (l in t[i] <==> Reaches(p, l, i))
  }

  /** What the loop ends with is exact if and only if no store was left behind: one look at each store tells. */
  lemma FixpointIsExact(p: Program, skip: bool, t: Taints)
    requires WellFormedProgram(p) && |t| == |p| && Sound(p, t) && Round(p, skip, t) == t
    ensures Exact(p, t) <==> StoresServed(p, t)
  {
    if Exact(p, t) {
      ExactServesStores(p, t);
    }
    if StoresServed(p, t) {
      ServedIsExact(p, skip, t);
    }
  }

  lemma ExactServesStores(p: Program, t: Taints)
    requires WellFormedProgram(p) && Exact(p, t)
    ensures StoresServed(p, t)
  {
    forall s, l | 0 <= s < |p| && p[s].Store? && p[s].value < |p| && l in p[s].feeds && l < |p|
      ensures t[p[s].value] <= t[l]
    {
      forall o | o in t[p[s].value]
        ensures o in t[l]
      {
        ReachesFurther(p, o, p[s].value, l);
      }
    }
  }

  lemma ServedIsExact(p: Program, skip: bool, t: Taints)
    requires WellFormedProgram(p) && |t| == |p| && Sound(p, t) && Round(p, skip, t) == t && StoresServed(p, t)
    ensures Exact(p, t)
  {
    forall i, l | 0 <= i < |p|
      ensures l in t[i] <==> Reaches(p, l, i)
    {
      if Reaches(p, l, i) {
        var c :| Chain(p, c, l, i);
        ChainIsFound(p, skip, t, c, l, i);
      }
    }
  }

  // ---------------------------------------------------------------------------------
  // The analysis

  /** What a taint map does not hold yet, as pairs of a load and an instruction. */
  ghost function Missing(t: Taints): set<Edge> {
    set l, i | l in NodesBelow(|t|) && i in NodesBelow(|t|) && l !in t[i] :: Edge(l, i)
  }

  lemma MoreIsMissingLess(p: Program, t: Taints, t': Taints)
    requires Below(t, t') && t != t' && |t| == |p| && Sound(p, t')
    ensures Missing(t') < Missing(t)
  {
    assert exists i :: 0 <= i < |t| && t[i] != t'[i];
    var i :| 0 <= i < |t| && t[i] != t'[i];
    var l :| l in t'[i] && l !in t[i];
    assert Reaches(p, l, i);
    assert Edge(l, i) in Missing(t);
    assert Edge(l, i) !in Missing(t');
  }

  /**
   * Rounds until one changes nothing. What is found is always there. All that is there is found if and only
   * if every store was served: when stores are never skipped, and also with the test if stores come last.
   */
  method Analyze(p: Program, skip: bool) returns (taints: Taints, ghost k: nat)
    requires WellFormedProgram(p)
    ensures taints == Rounds(p, skip, k) == Rounds(p, skip, k + 1)
    ensures Sound(p, taints) && (Exact(p, taints) <==> StoresServed(p, taints))
    ensures !skip || StoresComeLast(p) ==> Exact(p, taints)
  {
    taints, k := seq(|p|, i => {}), 0;
    var changed := true;
    while changed
      invariant taints == Rounds(p, skip, k) && Sound(p, taints)
      invariant StoresComeLast(p) ==> StoresServed(p, taints)
      invariant !changed ==> Round(p, skip, taints) == taints
      decreases Missing(taints), changed
    {
      var bak := taints;
      for i := 0 to |p|
        invariant taints == Partial(p, skip, bak, i)
      {
        match p[i]
        case NcaLoad =>
          taints := taints[i := taints[i] + {i}];
        case Store(v, feeds) =>
          if !skip || taints[v] != bak[v] {
            taints := FeedAll(taints, taints[v], feeds);
          }
        case Flow(ops) =>
          var out := taints[i];
          for j := 0 to |ops|
            invariant out == taints[i] + UnionOf(taints, ops[..j])
          {
            assert ops[..j + 1][..j] == ops[..j];
            out := out + taints[ops[j]];
          }
          assert ops[..|ops|] == ops;
          taints := taints[i := out];
        case _ =>
      }
      PartialIsSound(p, skip, bak, |p|);
      PartialGrows(p, skip, bak, 0, |p|);
      if StoresComeLast(p) {
        RoundServesStores(p, skip, bak);
      }
      changed := taints != bak;
      if changed {
        MoreIsMissingLess(p, bak, taints);
        k := k + 1;
      }
    }
    if !skip {
      FixpointServesStores(p, taints);
    }
    FixpointIsExact(p, skip, taints);
  }

  /** The taint of what store s writes, when it is visited in round r. */
  ghost function StoredAt(p: Program, r: nat, s: nat): set<nat>
    requires WellFormedProgram(p) && s < |p| && p[s].Store?
  {
    Partial(p, true, Rounds(p, true, r), s)[p[s].value]
  }

  /** It has changed since the start of the round. */
  ghost predicate ChangedAt(p: Program, r: nat, s: nat)
    requires WellFormedProgram(p)
  {
    s < |p| && p[s].Store? && StoredAt(p, r, s) != Rounds(p, true, r)[p[s].value]
  }

  lemma ChangedIsServed(p: Program, r: nat, k: nat, s: nat, l: nat)
    requires WellFormedProgram(p) && r < k && ChangedAt(p, r, s) && l in p[s].feeds && l < |p|
    ensures StoredAt(p, r, s) <= Rounds(p, true, k)[l]
  {
    var bak := Rounds(p, true, r);
    var t := Partial(p, true, bak, s + 1);
    assert StoredAt(p, r, s) <= t[l];
    PartialGrows(p, true, bak, s + 1, |p|);
    RoundsGrow(p, true, r + 1, k);
  }

  lemma {:induction false} RoundsGrow(p: Program, skip: bool, k: nat, k': nat)
    requires WellFormedProgram(p) && k <= k'
    ensures Below(Rounds(p, skip, k), Rounds(p, skip, k'))
    decreases k'
  {
    if k < k' {
      RoundsGrow(p, skip, k, k' - 1);
      PartialGrows(p, skip, Rounds(p, skip, k' - 1), 0, |p|);
    }
  }

  class SpeculativeTaintAnalysis {
    const p: Program
    var taints: Taints

    constructor (p: Program)
      ensures this.p == p
    {
      this.p := p;
      taints := [];
    }

    /**
     * The analysis as the code runs it, with the test: the rounds with the test, until one changes nothing. Taint
     * flows from operands to results and, at each visit of a store whose value has changed in the round, from what is
     * stored to all that may read it.
     */
    method RunOnFunction() returns (ghost k: nat)
      requires WellFormedProgram(p)
      modifies this
      ensures taints == Rounds(p, true, k) == Rounds(p, true, k + 1)
      ensures forall i :: 0 <= i < |p| && p[i].NcaLoad? ==> i in taints[i]
      ensures forall i, o :: 0 <= i < |p| && p[i].Flow? && o in p[i].operands && o < |p| ==> taints[o] <= taints[i]
      ensures forall r: nat, s: nat, l :: r < k && ChangedAt(p, r, s) && l in p[s].feeds && l < |p| ==> StoredAt(p, r, s) <= taints[l]
      ensures Sound(p, taints) && (StoresComeLast(p) ==> Exact(p, taints))
      ensures Exact(p, taints) <==> StoresServed(p, taints)
    {
      taints, k := Analyze(p, true);
      forall i | 0 <= i < |p|
        ensures p[i].NcaLoad? ==> i in taints[i]
        ensures p[i].Flow? ==> forall o :: o in p[i].operands && o < |p| ==> taints[o] <= taints[i]
      {
        FixpointFlows(p, true, taints, i);
      }
      forall r: nat, s: nat, l | r < k && ChangedAt(p, r, s) && l in p[s].feeds && l < |p|
        ensures StoredAt(p, r, s) <= taints[l]
      {
        ChangedIsServed(p, r, k, s, l);
      }
    }

    /** An instruction is secret only if some load reaches it, and whenever one does if stores come last. */
    predicate Secret(i: nat)
      requires i < |taints|
      reads this
      ensures Sound(p, taints) && Secret(i) ==> exists l :: Reaches(p, l, i)
      ensures Exact(p, taints) ==> (Secret(i) <==> exists l :: Reaches(p, l, i))
    {
      assert taints[i] != {} ==> exists l :: l in taints[i];
      taints[i] != {}
    }
  }

  // ---------------------------------------------------------------------------------
  // The test can lose taint

  /**
   * 0: load X;  1: store 0 to Y;  2: load from a non-constant address;  3: store 2 to X;  4: load Y.
   */
  const LATE_WRITE: Program := [CaLoad, Store(0, {4}), NcaLoad, Store(2, {0}), CaLoad]

  const LATE_TAINTS: Taints := [{2}, {}, {2}, {}, {}]

  /**
   * The taint of load 2 gets into instruction 0 after the store of 0 was visited. In the next round it is
   * there from the start, so the store sees no change and never passes it on to load 4, which it reaches.
   */
  lemma TestLosesTaint()
    ensures WellFormedProgram(LATE_WRITE) && !StoresComeLast(LATE_WRITE)
    ensures Rounds(LATE_WRITE, true, 1) == LATE_TAINTS == Rounds(LATE_WRITE, true, 2)
    ensures Reaches(LATE_WRITE, 2, 4) && 2 !in LATE_TAINTS[4]
  {
    var p := LATE_WRITE;
    assert Chain(p, [2], 2, 2) && p[1].value == 0 && Brings(p, 3, 2, 0);
    LateRound(seq(5, i => {}), [{}, {}, {}, {}, {}]);
    LateRound(LATE_TAINTS, LATE_TAINTS);
    assert Rounds(p, true, 0) == [{}, {}, {}, {}, {}];
    var c := [2, 0, 4];
    assert p[3].Store? && p[3].value == 2 && 0 in p[3].feeds;
    assert p[1].Store? && p[1].value == 0 && 4 in p[1].feeds;
    assert Feeds(p, Hop(c, 0)) && Feeds(p, Hop(c, 1));
    assert Chain(p, c, 2, 4);
  }

  lemma LateRound(t: Taints, u: Taints)
    requires t == u && WellFormedProgram(LATE_WRITE) && (u == [{}, {}, {}, {}, {}] || u == LATE_TAINTS)
    ensures Round(LATE_WRITE, true, t) == LATE_TAINTS
  {
    var p := LATE_WRITE;
    var t1 := Step(p, true, t, t, 0);
    var t2 := Step(p, true, t, t1, 1);
    var t3 := Step(p, true, t, t2, 2);
    var t4 := Step(p, true, t, t3, 3);
    assert t1 == t2 == t;
    assert t[2] + {2} == {2};
    assert t3 == t[2 := {2}];
    assert t4 == LATE_TAINTS;
    assert Partial(p, true, t, 1) == t1;
    assert Partial(p, true, t, 2) == t2;
    assert Partial(p, true, t, 3) == t3;
    assert Partial(p, true, t, 4) == t4;
    assert Partial(p, true, t, 5) == t4;
  }
}
