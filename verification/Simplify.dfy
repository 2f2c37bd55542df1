/**
 * The passes that make waypoint lists smaller before the cuts are computed. Each pass is specified by
 * what it leaves, and keeps the walks that pass through one of the lists.
 */
module Simplify {
  import opened Graphs
  import opened Waypoints
  import opened Search

  /** The walk passes through some list. */
  ghost predicate AdmitsAny(p: seq<nat>, sts: seq<Waypoints>) {
    exists i :: 0 <= i < |sts| && Admits(p, sts[i])
  }

  /** Every walk that passes through a list of `sts` passes through a list of `sts'`. */
  ghost predicate Covered(E: set<Edge>, sts: seq<Waypoints>, sts': seq<Waypoints>) {
    forall p :: IsWalk(E, p) && AdmitsAny(p, sts) ==> AdmitsAny(p, sts')
  }

  ghost predicate SameWalks(E: set<Edge>, W: Waypoints, W': Waypoints) {
    forall p :: IsWalk(E, p) ==> (Admits(p, W) <==> Admits(p, W'))
  }

  // ---------------------------------------------------------------------------------
  // The measure that every changing pass lowers: lists, sets and members

  function SetsSize(st: Waypoints): nat {
    if st == [] then 0 else 1 + |st[0]| + SetsSize(st[1..])
  }

  function Size(sts: seq<Waypoints>): nat {
    if sts == [] then 0 else 1 + SetsSize(sts[0]) + Size(sts[1..])
  }

  lemma {:induction false} SetsSizeJoin(a: Waypoints, b: Waypoints)
    ensures SetsSize(a + b) == SetsSize(a) + SetsSize(b)
  {
    if a == [] {
      assert a + b == b;
    } else {
      assert (a + b)[1..] == a[1..] + b;
      SetsSizeJoin(a[1..], b);
    }
  }

  lemma {:induction false} SizeJoin(a: seq<Waypoints>, b: seq<Waypoints>)
    ensures Size(a + b) == Size(a) + Size(b)
  {
    if a == [] {
      assert a + b == b;
    } else {
      assert (a + b)[1..] == a[1..] + b;
      SizeJoin(a[1..], b);
    }
  }

  /** Replacing one list changes the size by what the list grew. */
  lemma SizeUpdate(sts: seq<Waypoints>, i: nat, st: Waypoints)
    requires i < |sts|
    ensures Size(sts[i := st]) + SetsSize(sts[i]) == Size(sts) + SetsSize(st)
  {
    var a, b := sts[..i], sts[i + 1..];
    assert sts == a + ([sts[i]] + b) && sts[i := st] == a + ([st] + b);
    SizeJoin(a, [sts[i]] + b);
    SizeJoin(a, [st] + b);
    SizeJoin([sts[i]], b);
    SizeJoin([st], b);
  }

  lemma SetsSizeUpdate(st: Waypoints, i: nat, s: set<nat>)
    requires i < |st|
    ensures SetsSize(st[i := s]) + |st[i]| == SetsSize(st) + |s|
  {
    var a, b := st[..i], st[i + 1..];
    assert st == a + ([st[i]] + b) && st[i := s] == a + ([s] + b);
    SetsSizeJoin(a, [st[i]] + b);
    SetsSizeJoin(a, [s] + b);
    SetsSizeJoin([st[i]], b);
    SetsSizeJoin([s], b);
  }

  lemma SubsetSize(s: set<nat>, t: set<nat>)
    requires s <= t
    ensures |s| <= |t| && (s != t ==> |s| < |t|)
  {
    assert s + (t - s) == t;
    assert |s| + |t - s| == |t|;
    if s != t {
      var x :| x in t - s;
      assert |t - s| > 0;
    }
  }

  /** Every set of `st'` is contained in its counterpart in `st`. */
  ghost predicate Narrowed(st: Waypoints, st': Waypoints) {
    |st'| == |st| && forall j :: 0 <= j < |st| ==> st'[j] <= st[j]
  }

  lemma {:induction false} NarrowedSize(st: Waypoints, st': Waypoints)
    requires Narrowed(st, st')
    ensures SetsSize(st') <= SetsSize(st) && (st' != st ==> SetsSize(st') < SetsSize(st))
  {
    if st != [] {
      SubsetSize(st'[0], st[0]);
      NarrowedSize(st[1..], st'[1..]);
      assert st == [st[0]] + st[1..] && st' == [st'[0]] + st'[1..];
    }
  }

  lemma NarrowedAdmits(st: Waypoints, st': Waypoints, p: seq<nat>)
    requires Narrowed(st, st') && Admits(p, st')
    ensures Admits(p, st)
  {
    var pos :| VisitsInOrder(p, st', pos);
    assert VisitsInOrder(p, st, pos);
  }

  // ---------------------------------------------------------------------------------
  // Culling what the previous set does not reach

  /** The nodes of T that the nodes of S reach. */
  ghost function ReachedOf(E: set<Edge>, S: set<nat>, T: set<nat>): set<nat> {
    set t | t in T && PosReach(E, S, t)
  }

  method CullUnreachablesOf(g: IdxGraph, S: set<nat>, T: set<nat>) returns (T': set<nat>)
    requires WellFormed(g) && forall s :: s in S ==> s < |g|
    ensures T' == ReachedOf(Edges(g), S, T)
  {
    assert Avoiding(Edges(g), {}) == Edges(g);
    var reach, order := Discover(g, S, {});
    T' := set t | t in T && t in reach;
  }

  ghost function Staged(E: set<Edge>, st: Waypoints): (r: Waypoints)
    ensures |r| == |st|
  {
    seq(|st|, j requires 0 <= j < |st| => Stage(E, st, j))
  }

  /** A list that agrees with `st` at position i differs after an update there iff either part does. */
  lemma UpdateDiffers(st: Waypoints, st': Waypoints, i: nat, s: set<nat>)
    requires |st'| == |st| && i < |st| && st'[i] == st[i]
    ensures st'[i := s] != st <==> st' != st || s != st[i]
  {
    if st' != st {
      var j :| 0 <= j < |st| && st'[j] != st[j];
      assert st'[i := s][j] != st[j];
    }
  }

  /** From each set only what is reachable from what is left of the set before it. */
  method CullUnreachables(st: Waypoints, g: IdxGraph) returns (st': Waypoints, changed: bool)
    requires WellFormed(g) && WaypointsOf(g, st) && |st| >= 1
    ensures st' == Staged(Edges(g), st)
    ensures changed <==> st' != st
  {
    st' := st;
    var removed: nat := 0;
    for i := 1 to |st|
      invariant |st'| == |st|
      invariant forall j :: 0 <= j < i ==> st'[j] == Stage(Edges(g), st, j)
      invariant forall j :: i <= j < |st| ==> st'[j] == st[j]
      invariant removed > 0 <==> st' != st
    {
      var S := st'[i - 1];
      assert forall s :: s in S ==> s in st[i - 1] && s < |g|;
      var T := CullUnreachablesOf(g, S, st[i]);
      assert T == Stage(Edges(g), st, i);
      SubsetSize(T, st[i]);
      removed := removed + (|st[i]| - |T|);
      UpdateDiffers(st, st', i, T);
      st' := st'[i := T];
    }
    changed := removed > 0;
  }

  lemma CullUnreachablesKeepsWalks(st: Waypoints, E: set<Edge>)
    ensures Narrowed(st, Staged(E, st)) && SameWalks(E, st, Staged(E, st))
  {
    var st' := Staged(E, st);
    forall p | IsWalk(E, p)
      ensures Admits(p, st) <==> Admits(p, st')
    {
      if Admits(p, st) {
        var pos :| VisitsInOrder(p, st, pos);
        forall j | 0 <= j < |st|
          ensures pos[j] < |p| && p[pos[j]] in st'[j]
        {
          VisitIsStaged(E, st, p, pos, j);
        }
        assert VisitsInOrder(p, st', pos);
      }
      if Admits(p, st') {
        NarrowedAdmits(st, st', p);
      }
    }
  }

  // ---------------------------------------------------------------------------------
  // Culling sources that reach the next set only through other sources

  /** A walk from `s` into T that meets no node of S in between. */
  ghost predicate DirectWalk(E: set<Edge>, S: set<nat>, T: set<nat>, s: nat, q: seq<nat>) {
    && IsWalk(E, q) && |q| >= 2 && q[0] == s && q[|q| - 1] in T
    && forall m :: 0 < m < |q| - 1 ==> q[m] !in S
  }

  ghost predicate DirectReach(E: set<Edge>, S: set<nat>, T: set<nat>, s: nat) {
    exists q :: DirectWalk(E, S, T, s, q)
  }

  /** No node met so far, but those on the stack, has a successor in T. */
  ghost predicate NoHit(g: IdxGraph, T: set<nat>, met: set<nat>, stack: seq<nat>) {
    forall u, v :: u in met && u !in stack && u < |g| && v in g[u] ==> v !in T
  }

  /** A walk whose inner nodes avoid S, as a walk over the edges that do not enter S. */
  lemma {:induction false} InnerIsMet(g: IdxGraph, S: set<nat>, s: nat, q: seq<nat>, met: set<nat>, m: nat)
    requires IsWalk(Edges(g), q) && q[0] == s && s in met && m < |q| - 1
    requires forall i :: 0 < i < |q| - 1 ==> q[i] !in S
    requires forall e :: e in Avoiding(Edges(g), S) && e.src in met ==> e.dst in met
    ensures q[m] in met
  {
    if m > 0 {
      InnerIsMet(g, S, s, q, met, m - 1);
      assert Hop(q, m - 1) in Avoiding(Edges(g), S);
    }
  }

  lemma NothingHit(g: IdxGraph, S: set<nat>, T: set<nat>, s: nat, met: set<nat>)
    requires WellFormed(g) && s in met && NoHit(g, T, met, [])
    requires forall e :: e in Avoiding(Edges(g), S) && e.src in met ==> e.dst in met
    ensures !DirectReach(Edges(g), S, T, s)
  {
    if q :| DirectWalk(Edges(g), S, T, s, q) {
      LastEdge(g, q);
      InnerIsMet(g, S, s, q, met, |q| - 2);
    }
  }

  lemma LastEdge(g: IdxGraph, q: seq<nat>)
    requires IsWalk(Edges(g), q) && |q| >= 2
    ensures q[|q| - 2] < |g| && q[|q| - 1] in g[q[|q| - 2]]
  {
    assert Hop(q, |q| - 2) in Edges(g);
  }

  lemma {:induction false} AvoidsAfterStart(E: set<Edge>, S: set<nat>, q: seq<nat>, m: nat)
    requires IsWalk(Avoiding(E, S), q) && 0 < m < |q|
    ensures q[m] !in S
  {
    assert Hop(q, m - 1) in Avoiding(E, S);
  }

  lemma HitIsDirect(g: IdxGraph, S: set<nat>, T: set<nat>, s: nat, u: nat, t: nat)
    requires WellFormed(g) && u < |g| && t in g[u] && t in T
    requires u == s || PosReach(Avoiding(Edges(g), S), {s}, u)
    ensures DirectReach(Edges(g), S, T, s)
  {
    var E := Edges(g);
    EdgeIsWalk(E, u, t);
    if u == s {
      assert DirectWalk(E, S, T, s, [s, t]);
    } else {
      var q :| IsWalk(Avoiding(E, S), q) && |q| >= 2 && q[0] in {s} && q[|q| - 1] == u;
      forall i | 0 <= i < |q| - 1
        ensures Hop(q, i) in E
      {
        assert Hop(q, i) in Avoiding(E, S);
      }
      JoinWalks(E, q, [u, t]);
      var w := q + [u, t][1..];
      forall m | 0 < m < |w| - 1
        ensures w[m] !in S
      {
        AvoidsAfterStart(E, S, q, m);
        assert w[m] == q[m];
      }
      assert DirectWalk(E, S, T, s, w);
    }
  }

  ghost predicate Searching(g: IdxGraph, E: set<Edge>, S: set<nat>, T: set<nat>, s: nat, parent: map<nat, nat>,
                            order: seq<nat>, stack: seq<nat>)
  {
    && E == Avoiding(Edges(g), S)
    && DiscoveryTree(E, {s}, parent, order)
    && Frontier(E, |g|, {s}, parent.Keys, stack)
    && NoHit(g, T, parent.Keys + {s}, stack)
  }

  lemma HitFound(g: IdxGraph, E: set<Edge>, S: set<nat>, T: set<nat>, s: nat, parent: map<nat, nat>,
                 order: seq<nat>, stack: seq<nat>, u: nat)
    requires WellFormed(g) && Searching(g, E, S, T, s, parent, order, stack)
    requires u in stack && u < |g| && g[u].Keys * T != {}
    ensures DirectReach(Edges(g), S, T, s)
  {
    var t :| t in g[u].Keys * T;
    if u != s {
      assert u in parent;
      var i :| 0 <= i < |order| && order[i] == u;
      DiscoveredIsReached(E, {s}, parent, order, i);
    }
    HitIsDirect(g, S, T, s, u, t);
  }

  /** One step of the search, from the node on top of the stack. */
  method SearchOn(g: IdxGraph, ghost E: set<Edge>, S: set<nat>, ghost T: set<nat>, s: nat, stack: seq<nat>,
                  parent: map<nat, nat>, ghost order: seq<nat>)
    returns (stack': seq<nat>, parent': map<nat, nat>, ghost order': seq<nat>)
    requires WellFormed(g) && Searching(g, E, S, T, s, parent, order, stack)
    requires |stack| > 0 && stack[|stack| - 1] < |g| && g[stack[|stack| - 1]].Keys * T == {}
    ensures Searching(g, E, S, T, s, parent', order', stack')
    ensures parent.Keys < parent'.Keys || (parent.Keys == parent'.Keys && |stack'| < |stack|)
  {
    var u, rest := stack[|stack| - 1], stack[..|stack| - 1];
    assert u in stack;
    stack', parent', order' := Expand(g, E, {s}, S, u, rest, parent, order);
    FrontierMoves(E, g, {s}, S, parent.Keys, stack, parent'.Keys, stack');
    DiscoveredInOrder(E, {s}, parent, order, parent', order');
    NoHitMoves(g, T, parent.Keys + {s}, stack, parent'.Keys + {s}, stack');
  }

  /** Whether an edge leads from `u` into T. */
  method StepsInto(g: IdxGraph, T: set<nat>, u: nat) returns (hit: bool)
    requires u < |g|
    ensures hit <==> g[u].Keys * T != {}
  {
    hit := exists v :: v in g[u] && v in T;
    if hit {
      var v :| v in g[u] && v in T;
      assert v in g[u].Keys * T;
    }
  }

  /** Depth-first from `s`, not through S, until a node of T turns up. */
  method ReachesDirectly(g: IdxGraph, S: set<nat>, T: set<nat>, s: nat) returns (hit: bool)
    requires WellFormed(g) && s < |g|
    ensures hit <==> DirectReach(Edges(g), S, T, s)
  {
    ghost var E := Avoiding(Edges(g), S);
    var parent: map<nat, nat> := map[];
    var stack: seq<nat> := [s];
    ghost var order: seq<nat> := [];
    while |stack| > 0
      invariant Searching(g, E, S, T, s, parent, order, stack)
      decreases NodesBelow(|g|) - parent.Keys, |stack|
    {
      var u := stack[|stack| - 1];
      assert u in stack && u < |g|;
      var stepsInto := StepsInto(g, T, u);
      if stepsInto {
        HitFound(g, E, S, T, s, parent, order, stack, u);
        return true;
      }
      stack, parent, order := SearchOn(g, E, S, T, s, stack, parent, order);
    }
    NothingHit(g, S, T, s, parent.Keys + {s});
    hit := false;
  }

  lemma NoHitMoves(g: IdxGraph, T: set<nat>, met: set<nat>, stack: seq<nat>, met': set<nat>, stack': seq<nat>)
    requires |stack| > 0 && stack[|stack| - 1] < |g| && NoHit(g, T, met, stack)
    requires g[stack[|stack| - 1]].Keys * T == {} && stack[..|stack| - 1] <= stack'
    requires forall v :: v in met' ==> v in met || v in stack'
    ensures NoHit(g, T, met', stack')
  {
    var u := stack[|stack| - 1];
    assert stack == stack[..|stack| - 1] + [u];
    forall w, v | w in met' && w !in stack' && w < |g| && v in g[w]
      ensures v !in T
    {
      if w != u {
        assert w !in stack;
      } else {
        assert v in g[u].Keys;
        assert v !in g[u].Keys * T;
      }
    }
  }

  /** Dropping sources that are not directly reaching T does not change which others are. */
  lemma DirectAgainst(E: set<Edge>, S: set<nat>, cur: set<nat>, T: set<nat>, s: nat)
    requires cur <= S && forall r :: r in S - cur ==> !DirectReach(E, S, T, r)
    ensures DirectReach(E, cur, T, s) <==> DirectReach(E, S, T, s)
  {
    if q :| DirectWalk(E, S, T, s, q) {
      assert DirectWalk(E, cur, T, s, q);
    }
    if q :| DirectWalk(E, cur, T, s, q) {
      if forall m :: 0 < m < |q| - 1 ==> q[m] !in S {
        assert DirectWalk(E, S, T, s, q);
      } else {
        var m := LastIn(S, q);
        DirectSuffix(E, S, T, q, m);
        assert q[m] in S - cur;
      }
    }
  }

  /** The last inner position of q in S. */
  lemma LastIn(S: set<nat>, q: seq<nat>) returns (m: nat)
    requires exists i :: 0 < i < |q| - 1 && q[i] in S
    ensures 0 < m < |q| - 1 && q[m] in S && forall i :: m < i < |q| - 1 ==> q[i] !in S
  {
    m :| 0 < m < |q| - 1 && q[m] in S;
    while exists i :: m < i < |q| - 1 && q[i] in S
      invariant 0 < m < |q| - 1 && q[m] in S
      decreases |q| - m
    {
      var i :| m < i < |q| - 1 && q[i] in S;
      m := i;
    }
  }

  lemma DirectSuffix(E: set<Edge>, S: set<nat>, T: set<nat>, q: seq<nat>, m: nat)
    requires IsWalk(E, q) && m < |q| - 1 && q[|q| - 1] in T
    requires forall i :: m < i < |q| - 1 ==> q[i] !in S
    ensures DirectReach(E, S, T, q[m])
  {
    SliceOfWalk(E, q, m, |q|);
    var w := q[m..|q|];
    forall i | 0 < i < |w| - 1
      ensures w[i] !in S
    {
      assert w[i] == q[m + i];
    }
    assert DirectWalk(E, S, T, q[m], w);
  }

  ghost function DirectSources(E: set<Edge>, S: set<nat>, T: set<nat>): set<nat> {
    set s | s in S && DirectReach(E, S, T, s)
  }

  /** Drops the sources of one set, one after the other, while the set shrinks. */
  method CullSourcesOf(g: IdxGraph, S: set<nat>, T: set<nat>) returns (S': set<nat>)
    requires WellFormed(g) && forall s :: s in S ==> s < |g|
    ensures S' == DirectSources(Edges(g), S, T)
  {
    S' := S;
    var todo := S;
    while todo != {}
      invariant todo <= S' <= S
      invariant forall s :: s in S - todo ==> (s in S' <==> DirectReach(Edges(g), S, T, s))
    {
      var s :| s in todo;
      todo := todo - {s};
      DirectAgainst(Edges(g), S, S', T, s);
      var hit := ReachesDirectly(g, S', T, s);
      if !hit {
        S' := S' - {s};
      }
    }
  }

  ghost function CulledSources(E: set<Edge>, st: Waypoints): (r: Waypoints)
    ensures |r| == |st|
  {
    seq(|st|, j requires 0 <= j < |st| => if j + 1 < |st| then DirectSources(E, st[j], st[j + 1]) else st[j])
  }

  method CullSources(st: Waypoints, g: IdxGraph) returns (st': Waypoints, changed: bool)
    requires WellFormed(g) && WaypointsOf(g, st) && |st| >= 1
    ensures st' == CulledSources(Edges(g), st)
    ensures changed <==> st' != st
  {
    st', changed := st, false;
    for i := 0 to |st| - 1
      invariant |st'| == |st|
      invariant forall j :: 0 <= j < i ==> st'[j] == CulledSources(Edges(g), st)[j]
      invariant forall j :: i <= j < |st| ==> st'[j] == st[j]
      invariant changed <==> st' != st
    {
      assert forall s :: s in st[i] ==> s < |g|;
      var S := CullSourcesOf(g, st'[i], st'[i + 1]);
      changed := changed || S != st'[i];
      st' := st'[i := S];
      assert st'[i] == CulledSources(Edges(g), st)[i];
    }
  }

  /** Moving each visit of a set to the last one before the next set is visited keeps direct sources only. */
  lemma LateVisit(E: set<Edge>, S: set<nat>, T: set<nat>, p: seq<nat>, a: nat, b: nat) returns (c: nat)
    requires IsWalk(E, p) && a < b < |p| && p[a] in S && p[b] in T
    ensures a <= c < b && p[c] in DirectSources(E, S, T)
  {
    var q := p[a..b + 1];
    SliceOfWalk(E, p, a, b + 1);
    var m := 0;
    if i :| 0 < i < |q| - 1 && q[i] in S {
      m := LastIn(S, q);
    }
    DirectSuffix(E, S, T, q, m);
    c := a + m;
  }

  /** Position late[j] is in W[j], no earlier than pos[j], and before the visit of the next set. */
  ghost predicate LateAt(E: set<Edge>, st: Waypoints, p: seq<nat>, pos: seq<nat>, late: seq<nat>, j: nat)
    requires j + 1 < |st| && |pos| == |late| == |st|
  {
    pos[j] <= late[j] < pos[j + 1] < |p| && p[late[j]] in DirectSources(E, st[j], st[j + 1])
  }

  lemma {:induction false} LateVisits(E: set<Edge>, st: Waypoints, p: seq<nat>, pos: seq<nat>, k: nat) returns (late: seq<nat>)
    requires IsWalk(E, p) && VisitsInOrder(p, st, pos) && 0 < k <= |st|
    ensures |late| == |st| && forall j :: k <= j < |st| ==> late[j] == pos[j]
    ensures forall j :: 0 <= j < k && j + 1 < |st| ==> LateAt(E, st, p, pos, late, j)
    ensures k == |st| ==> late[k - 1] == pos[k - 1]
    decreases k
  {
    assert forall j :: 0 <= j < |st| ==> pos[j] < |p|;
    late := pos;
    if k > 1 {
      late := LateVisits(E, st, p, pos, k - 1);
    }
    if k < |st| {
      assert pos[k - 1] < pos[k] && p[pos[k - 1]] in st[k - 1] && p[pos[k]] in st[k];
      var c := LateVisit(E, st[k - 1], st[k], p, pos[k - 1], pos[k]);
      var before := late;
      late := late[k - 1 := c];
      forall j | 0 <= j < k && j + 1 < |st|
        ensures LateAt(E, st, p, pos, late, j)
      {
        assert j < k - 1 ==> LateAt(E, st, p, pos, before, j);
      }
    }
  }

  lemma LateIsCulled(E: set<Edge>, st: Waypoints, p: seq<nat>, pos: seq<nat>, late: seq<nat>, j: nat)
    requires |pos| == |late| == |st| && j < |st|
    requires if j + 1 < |st| then LateAt(E, st, p, pos, late, j) else late[j] == pos[j] < |p| && p[pos[j]] in st[j]
    ensures pos[j] <= late[j] < |p| && p[late[j]] in CulledSources(E, st)[j]
  {
  }

  lemma LateIsOrdered(E: set<Edge>, st: Waypoints, p: seq<nat>, pos: seq<nat>, late: seq<nat>, i: nat, j: nat)
    requires |pos| == |late| == |st| && i < j < |st|
    requires LateAt(E, st, p, pos, late, i) && pos[i + 1] <= pos[j] <= late[j]
    ensures late[i] < late[j]
  {
  }

  /** The late visits of all sets but the last, which is visited where it was. */
  ghost predicate AllLate(E: set<Edge>, st: Waypoints, p: seq<nat>, pos: seq<nat>, late: seq<nat>) {
    && |pos| == |late| == |st| >= 1
    && (forall j :: 0 <= j < |st| - 1 ==> LateAt(E, st, p, pos, late, j))
    && late[|st| - 1] == pos[|st| - 1]
  }

  lemma LateVisitsOrdered(E: set<Edge>, st: Waypoints, p: seq<nat>, pos: seq<nat>, late: seq<nat>, i: nat, j: nat)
    requires VisitsInOrder(p, st, pos) && AllLate(E, st, p, pos, late) && i < j < |st|
    ensures late[i] < late[j]
  {
    var next := i + 1;
    assert LateAt(E, st, p, pos, late, i);
    assert j < |st| - 1 ==> LateAt(E, st, p, pos, late, j);
    assert next < j ==> pos[next] < pos[j];
    LateIsOrdered(E, st, p, pos, late, i, j);
  }

  lemma LateVisitsCulled(E: set<Edge>, st: Waypoints, p: seq<nat>, pos: seq<nat>, late: seq<nat>, j: nat)
    requires VisitsInOrder(p, st, pos) && AllLate(E, st, p, pos, late) && j < |st|
    ensures late[j] < |p| && p[late[j]] in CulledSources(E, st)[j]
  {
    assert pos[j] < |p| && p[pos[j]] in st[j];
    assert j < |st| - 1 ==> LateAt(E, st, p, pos, late, j);
    LateIsCulled(E, st, p, pos, late, j);
  }

  lemma LateVisitsVisit(E: set<Edge>, st: Waypoints, p: seq<nat>, pos: seq<nat>) returns (late: seq<nat>)
    requires |st| >= 1 && IsWalk(E, p) && VisitsInOrder(p, st, pos)
    ensures VisitsInOrder(p, CulledSources(E, st), late)
  {
    late := LateVisits(E, st, p, pos, |st|);
    assert AllLate(E, st, p, pos, late);
    forall j | 0 <= j < |st|
      ensures late[j] < |p| && p[late[j]] in CulledSources(E, st)[j]
    {
      LateVisitsCulled(E, st, p, pos, late, j);
    }
    forall i, j | 0 <= i < j < |st|
      ensures late[i] < late[j]
    {
      LateVisitsOrdered(E, st, p, pos, late, i, j);
    }
  }

  lemma CullSourcesKeepsWalks(st: Waypoints, E: set<Edge>)
    requires |st| >= 1
    ensures Narrowed(st, CulledSources(E, st)) && SameWalks(E, st, CulledSources(E, st))
  {
    var st' := CulledSources(E, st);
    assert Narrowed(st, st');
    forall p | IsWalk(E, p)
      ensures Admits(p, st) <==> Admits(p, st')
    {
      if pos :| VisitsInOrder(p, st, pos) {
        var late := LateVisitsVisit(E, st, p, pos);
      }
      if Admits(p, st') {
        NarrowedAdmits(st, st', p);
      }
    }
  }
}
