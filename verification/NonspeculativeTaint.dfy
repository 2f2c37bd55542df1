/**
 * Which values are public without speculation: a growing set, from transmitter operands back through
 * operands and through memory, where each access is pushed to its aliases only once.
 */
module NonspeculativeTaint {

  /**
   * An instruction by its rule. Values are numbered, instructions first. A flow makes its operands public,
   * always or when its own value is public; `call` says that it is visited with the calls of a round. An
   * access has a pointer and the values that go through it; only a reader passes its publicness on.
   */
  datatype Op =
    | Flow(call: bool, always: bool, operands: set<nat>)
    | Access(reader: bool, values: set<nat>)
    | Other

  type Program = seq<Op>

  /** Whether the pointers of two accesses must be the same. */
  type Alias = (nat, nat) -> bool

  // ---------------------------------------------------------------------------------
  // The rules

  predicate FlowHolds(p: Program, i: nat, S: set<nat>)
    requires i < |p|
  {
    p[i].Flow? && (p[i].always || i in S) ==> p[i].operands <= S
  }

  /** What a public reader makes public: its own values and those of its aliases. */
  ghost predicate PushHolds(p: Program, alias: Alias, i: nat, S: set<nat>)
    requires i < |p| && p[i].Access?
  {
    p[i].values <= S && forall j :: 0 <= j < |p| && p[j].Access? && alias(i, j) ==> p[j].values <= S
  }

  ghost predicate Closed(p: Program, alias: Alias, S: set<nat>) {
    && (forall i :: 0 <= i < |p| ==> FlowHolds(p, i, S))
    && (forall i :: 0 <= i < |p| && p[i].Access? && p[i].reader && i in S ==> PushHolds(p, alias, i, S))
  }

  /** Nothing is in `pub` that is not in every closed set from `init` on. */
  ghost predicate Needed(p: Program, alias: Alias, init: set<nat>, pub: set<nat>) {
    init <= pub && forall S :: init <= S && Closed(p, alias, S) ==> pub <= S
  }

  ghost predicate Least(p: Program, alias: Alias, init: set<nat>, pub: set<nat>) {
    Needed(p, alias, init, pub) && Closed(p, alias, pub)
  }

  /** Everything that can become public. */
  function Mentioned(p: Program): set<nat> {
    if p == [] then {}
    else
      var last := p[|p| - 1];
      Mentioned(p[..|p| - 1]) + (match last case Flow(_, _, ops) => ops case Access(_, vs) => vs case Other => {})
  }

  lemma {:induction false} OperandsAreMentioned(p: Program, i: nat)
    requires i < |p|
    ensures p[i].Flow? ==> p[i].operands <= Mentioned(p)
    ensures p[i].Access? ==> p[i].values <= Mentioned(p)
  {
    if i < |p| - 1 {
      OperandsAreMentioned(p[..|p| - 1], i);
    }
  }

  lemma FlowIsNeeded(p: Program, alias: Alias, init: set<nat>, pub: set<nat>, i: nat)
    requires i < |p| && p[i].Flow? && (p[i].always || i in pub) && Needed(p, alias, init, pub)
    ensures Needed(p, alias, init, pub + p[i].operands)
  {
    forall S | init <= S && Closed(p, alias, S)
      ensures pub + p[i].operands <= S
    {
      assert FlowHolds(p, i, S);
    }
  }

  lemma PushIsNeeded(p: Program, alias: Alias, init: set<nat>, pub: set<nat>, more: set<nat>, i: nat, j: nat)
    requires i < |p| && p[i].Access? && p[i].reader && i in pub && Needed(p, alias, init, pub)
    requires j < |p| && p[j].Access? && (i == j || alias(i, j)) && Needed(p, alias, init, more) && pub <= more
    ensures Needed(p, alias, init, more + p[j].values)
  {
    forall S | init <= S && Closed(p, alias, S)
      ensures more + p[j].values <= S
    {
      assert PushHolds(p, alias, i, S);
    }
  }

  // ---------------------------------------------------------------------------------
  // Rounds that push every public access each time

  /** After the flows among the first m instructions that are calls, or that are none. */
  function Flowed(p: Program, S: set<nat>, call: bool, m: nat): (r: set<nat>)
    requires m <= |p|
    ensures S <= r
  {
    if m == 0 then S
    else
      var T := Flowed(p, S, call, m - 1);
      if p[m - 1].Flow? && p[m - 1].call == call && (p[m - 1].always || m - 1 in T) then T + p[m - 1].operands else T
  }

  /** The values of access i and of its aliases among the first m instructions. */
  function PushOne(p: Program, alias: Alias, i: nat, S: set<nat>, m: nat): (r: set<nat>)
    requires i < |p| && p[i].Access? && m <= |p|
    ensures S + p[i].values <= r
  {
    if m == 0 then S + p[i].values
    else
      var T := PushOne(p, alias, i, S, m - 1);
      if p[m - 1].Access? && alias(i, m - 1) then T + p[m - 1].values else T
  }

  /** After pushing every public reader among the first m instructions. */
  function PushAll(p: Program, alias: Alias, S: set<nat>, m: nat): (r: set<nat>)
    requires m <= |p|
    ensures S <= r
  {
    if m == 0 then S
    else
      var T := PushAll(p, alias, S, m - 1);
      if p[m - 1].Access? && p[m - 1].reader && m - 1 in T then PushOne(p, alias, m - 1, T, |p|) else T
  }

  function Round(p: Program, alias: Alias, S: set<nat>): (r: set<nat>)
    ensures S <= r
  {
    Flowed(p, PushAll(p, alias, Flowed(p, S, true, |p|), |p|), false, |p|)
  }

  function Rounds(p: Program, alias: Alias, init: set<nat>, k: nat): (r: set<nat>)
    ensures init <= r
  {
    if k == 0 then init else Round(p, alias, Rounds(p, alias, init, k - 1))
  }

  lemma {:induction false} FlowedIsNeeded(p: Program, alias: Alias, init: set<nat>, S: set<nat>, call: bool, m: nat)
    requires m <= |p| && Needed(p, alias, init, S)
    ensures Needed(p, alias, init, Flowed(p, S, call, m)) && Flowed(p, S, call, m) <= S + Mentioned(p)
  {
    if m > 0 {
      FlowedIsNeeded(p, alias, init, S, call, m - 1);
      OperandsAreMentioned(p, m - 1);
      var T := Flowed(p, S, call, m - 1);
      if p[m - 1].Flow? && (p[m - 1].always || m - 1 in T) {
        FlowIsNeeded(p, alias, init, T, m - 1);
      }
    }
  }

  lemma {:induction false} PushOneIsNeeded(p: Program, alias: Alias, init: set<nat>, i: nat, S: set<nat>, m: nat)
    requires i < |p| && p[i].Access? && p[i].reader && i in S && m <= |p| && Needed(p, alias, init, S)
    ensures Needed(p, alias, init, PushOne(p, alias, i, S, m)) && PushOne(p, alias, i, S, m) <= S + Mentioned(p)
  {
    OperandsAreMentioned(p, i);
    if m == 0 {
      PushIsNeeded(p, alias, init, S, S, i, i);
    } else {
      PushOneIsNeeded(p, alias, init, i, S, m - 1);
      OperandsAreMentioned(p, m - 1);
      if p[m - 1].Access? && alias(i, m - 1) {
        PushIsNeeded(p, alias, init, S, PushOne(p, alias, i, S, m - 1), i, m - 1);
      }
    }
  }

  lemma {:induction false} PushAllIsNeeded(p: Program, alias: Alias, init: set<nat>, S: set<nat>, m: nat)
    requires m <= |p| && Needed(p, alias, init, S)
    ensures Needed(p, alias, init, PushAll(p, alias, S, m)) && PushAll(p, alias, S, m) <= S + Mentioned(p)
  {
    if m > 0 {
      PushAllIsNeeded(p, alias, init, S, m - 1);
      var T := PushAll(p, alias, S, m - 1);
      if p[m - 1].Access? && p[m - 1].reader && m - 1 in T {
        PushOneIsNeeded(p, alias, init, m - 1, T, |p|);
      }
    }
  }

  /** No round makes anything public that need not be, and all that becomes public is mentioned. */
  lemma {:induction false} RoundsAreNeeded(p: Program, alias: Alias, init: set<nat>, k: nat)
    ensures Needed(p, alias, init, Rounds(p, alias, init, k)) && Rounds(p, alias, init, k) <= init + Mentioned(p)
  {
    if k > 0 {
      RoundsAreNeeded(p, alias, init, k - 1);
      var S := Rounds(p, alias, init, k - 1);
      var T := Flowed(p, S, true, |p|);
      FlowedIsNeeded(p, alias, init, S, true, |p|);
      PushAllIsNeeded(p, alias, init, T, |p|);
      FlowedIsNeeded(p, alias, init, PushAll(p, alias, T, |p|), false, |p|);
    }
  }

  /** Flows that change nothing hold. */
  lemma {:induction false} FlowedHolds(p: Program, S: set<nat>, call: bool, m: nat, i: nat)
    requires i < m <= |p| && Flowed(p, S, call, m) == S && p[i].Flow? && p[i].call == call
    ensures FlowHolds(p, i, S)
  {
    if i < m - 1 {
      FlowedHolds(p, S, call, m - 1, i);
    }
  }

  /** A push makes public what its rule asks for; and when that is so already, it changes nothing. */
  lemma {:induction false} PushOneHolds(p: Program, alias: Alias, i: nat, S: set<nat>, m: nat)
    requires i < |p| && p[i].Access? && m <= |p|
    ensures var r := PushOne(p, alias, i, S, m);
            && p[i].values <= r
            && (forall j :: 0 <= j < m && p[j].Access? && alias(i, j) ==> p[j].values <= r)
            && (PushHolds(p, alias, i, S) ==> r == S)
  {
    if m > 0 {
      PushOneHolds(p, alias, i, S, m - 1);
    }
  }

  lemma {:induction false} PushAllHolds(p: Program, alias: Alias, S: set<nat>, m: nat, i: nat)
    requires i < m <= |p| && PushAll(p, alias, S, m) == S && p[i].Access? && p[i].reader && i in S
    ensures PushHolds(p, alias, i, S)
  {
    var T := PushAll(p, alias, S, m - 1);
    assert S <= T <= PushAll(p, alias, S, m);
    assert T == S;
    if i < m - 1 {
      PushAllHolds(p, alias, S, m - 1, i);
    } else {
      assert PushOne(p, alias, i, S, |p|) == S;
      PushOneHolds(p, alias, i, S, |p|);
    }
  }

  /** The rounds that push every public access each time end in the least set that all rules hold of. */
  lemma StableIsLeast(p: Program, alias: Alias, init: set<nat>, k: nat)
    requires Rounds(p, alias, init, k + 1) == Rounds(p, alias, init, k)
    ensures Least(p, alias, init, Rounds(p, alias, init, k))
  {
    var S := Rounds(p, alias, init, k);
    RoundsAreNeeded(p, alias, init, k);
    var T := Flowed(p, S, true, |p|);
    assert T == S && PushAll(p, alias, S, |p|) == S && Flowed(p, S, false, |p|) == S;
    forall i | 0 <= i < |p|
      ensures FlowHolds(p, i, S)
    {
      if p[i].Flow? {
        FlowedHolds(p, S, p[i].call, |p|, i);
      }
    }
    forall i | 0 <= i < |p| && p[i].Access? && p[i].reader && i in S
      ensures PushHolds(p, alias, i, S)
    {
      PushAllHolds(p, alias, S, |p|, i);
    }
  }

  // ---------------------------------------------------------------------------------
  // Rounds that push every access once

  /** The flows among the calls, or those that are no calls. */
  method FlowPass(p: Program, pub: set<nat>, call: bool) returns (pub': set<nat>)
    ensures pub' == Flowed(p, pub, call, |p|)
  {
    pub' := pub;
    for i := 0 to |p|
      invariant pub' == Flowed(p, pub, call, i)
    {
      if p[i].Flow? && p[i].call == call && (p[i].always || i in pub') {
        pub' := pub' + p[i].operands;
      }
    }
  }

  /** The values of a public reader and of all its aliases. */
  method PushAccess(p: Program, alias: Alias, pub: set<nat>, i: nat) returns (pub': set<nat>)
    requires i < |p| && p[i].Access?
    ensures pub' == PushOne(p, alias, i, pub, |p|)
  {
    pub' := pub + p[i].values;
    for j := 0 to |p|
      invariant pub' == PushOne(p, alias, i, pub, j)
    {
      if p[j].Access? && alias(i, j) {
        pub' := pub' + p[j].values;
      }
    }
  }

  /** The accesses pushed already: what each has to make public is public. */
  ghost predicate Pushed(p: Program, alias: Alias, seen: set<nat>, pub: set<nat>) {
    forall i :: i in seen ==> i < |p| && p[i].Access? && PushHolds(p, alias, i, pub)
  }

  /** Pushes the public readers that were not pushed before. The outcome is that of pushing all of them. */
  method MemoryPass(p: Program, alias: Alias, pub: set<nat>, seen: set<nat>) returns (pub': set<nat>, seen': set<nat>)
    requires Pushed(p, alias, seen, pub)
    ensures pub' == PushAll(p, alias, pub, |p|)
    ensures seen <= seen' && Pushed(p, alias, seen', pub')
  {
    pub', seen' := pub, seen;
    for i := 0 to |p|
      invariant pub' == PushAll(p, alias, pub, i)
      invariant seen <= seen' && Pushed(p, alias, seen', pub')
    {
      if i in seen' {
        PushOneHolds(p, alias, i, pub', |p|);
      } else if p[i].Access? && p[i].reader && i in pub' {
        ghost var before := pub';
        pub' := PushAccess(p, alias, pub', i);
        PushOneHolds(p, alias, i, before, |p|);
        StillPushed(p, alias, seen', before, pub');
        seen' := seen' + {i};
      }
    }
  }

  lemma StillPushed(p: Program, alias: Alias, seen: set<nat>, pub: set<nat>, pub': set<nat>)
    requires Pushed(p, alias, seen, pub) && pub <= pub'
    ensures Pushed(p, alias, seen, pub')
  {
    forall i | i in seen
      ensures i < |p| && p[i].Access? && PushHolds(p, alias, i, pub')
    {
      assert PushHolds(p, alias, i, pub);
    }
  }

  class NonspeculativeTaintAnalysis {
    const p: Program
    var pubVals: set<nat>

    constructor (p: Program)
      ensures this.p == p
    {
      this.p := p;
      pubVals := {};
    }

    /**
     * Rounds until nothing new becomes public. Although every access is pushed once only, in the round in
     * which it becomes public, each round ends in what pushing every access in every round would give, so the
     * loop stops after the same round k, with the least set that all rules hold of.
     */
    method RunOnFunction(alias: Alias, init: set<nat>) returns (ghost k: nat)
      modifies this
      ensures pubVals == Rounds(p, alias, init, k) == Rounds(p, alias, init, k + 1)
      ensures forall j :: 0 <= j < k ==> Rounds(p, alias, init, j) != Rounds(p, alias, init, j + 1)
      ensures Least(p, alias, init, pubVals)
    {
      pubVals, k := init, 0;
      var seen: set<nat> := {};
      var changed := true;
      while changed
        invariant pubVals == Rounds(p, alias, init, k) && Pushed(p, alias, seen, pubVals)
        invariant forall j :: 0 <= j < k ==> Rounds(p, alias, init, j) != Rounds(p, alias, init, j + 1)
        invariant !changed ==> Rounds(p, alias, init, k + 1) == pubVals
        decreases init + Mentioned(p) - pubVals, changed
      {
        var bak := pubVals;
        var p1 := FlowPass(p, pubVals, true);
        StillPushed(p, alias, seen, pubVals, p1);
        var p2;
        p2, seen := MemoryPass(p, alias, p1, seen);
        pubVals := FlowPass(p, p2, false);
        StillPushed(p, alias, seen, p2, pubVals);
        assert pubVals == Rounds(p, alias, init, k + 1);
        RoundsAreNeeded(p, alias, init, k + 1);
        changed := pubVals != bak;
        if changed {
          k := k + 1;
        }
      }
      StableIsLeast(p, alias, init, k);
    }

    /** After a run: an instruction is secret if some set that holds what is public to start with and all rules lacks it. */
    predicate Secret(v: nat)
      reads this
      ensures forall alias, init :: Least(p, alias, init, pubVals) ==>
                (Secret(v) <==> v < |p| && exists S :: init <= S && Closed(p, alias, S) && v !in S)
    {
      v < |p| && v !in pubVals
    }
  }
}
