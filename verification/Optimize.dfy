/** All passes, one round after the other, until a round changes nothing. */
module Optimize {
  import opened Graphs
  import opened Waypoints
  import opened SimpleWalks
  import opened Simplify
  import opened Dropping
  import opened SimplifyLists
  import opened Joining
  import opened IrreducibleLists

  ghost predicate ListOk(g: IdxGraph, st: Waypoints) {
    |st| >= 2 && WaypointsOf(g, st)
  }

  ghost predicate ListsOk(g: IdxGraph, sts: seq<Waypoints>) {
    forall st :: st in sts ==> ListOk(g, st)
  }

  predicate AllShort(sts: seq<Waypoints>, n: nat) {
    forall st :: st in sts ==> |st| <= n
  }

  /** Every list has just two sets, as for plain source-sink pairs. */
  predicate OnlyPairs(sts: seq<Waypoints>) {
    AllShort(sts, 2)
  }

  predicate AllSingle(sts: seq<Waypoints>) {
    forall st :: st in sts ==> SingletonMiddles(st)
  }

  ghost predicate Passes(E: set<Edge>, st: Waypoints, st': Waypoints) {
    forall p :: IsWalk(E, p) && Admits(p, st) ==> Admits(p, st')
  }

  ghost function Culled(E: set<Edge>, st: Waypoints): Waypoints {
    CulledSources(E, Staged(E, st))
  }

  lemma NarrowedApart(st: Waypoints, st': Waypoints)
    requires Apart(st) && Narrowed(st, st')
    ensures Apart(st')
  {
    forall i, j | 1 <= i < j < |st'|
      ensures st'[i] !! st'[j]
    {
      assert st'[i] <= st[i] && st'[j] <= st[j] && st[i] !! st[j];
    }
  }

  /**
   * The passes over one list. `exact` says that no walk was added, which is sure when no two sets from the
   * second on share a node.
   */
  method OptimizeList(st: Waypoints, g: IdxGraph) returns (st': Waypoints, changed: bool, ghost exact: bool)
    requires WellFormed(g) && ListOk(g, st)
    ensures st' == DropRedundant(Edges(g), Culled(Edges(g), st), 1)
    ensures exact <==> DropsExactly(Edges(g), Culled(Edges(g), st), 1)
    ensures ListOk(g, st') && |st'| <= |st|
    ensures Passes(Edges(g), st, st') && (exact <==> SameWalks(Edges(g), st, st'))
    ensures (Apart(st) ==> Apart(st') && exact) && (SingletonMiddles(st) ==> SingletonMiddles(st'))
    ensures Separated(Edges(g), st) ==> HasEmptySet(st')
    ensures if changed then SetsSize(st') < SetsSize(st) else st' == st && Settled(Edges(g), st)
  {
    ghost var E := Edges(g);
    var st1, c1 := CullUnreachables(st, g);
    CullUnreachablesKeepsWalks(st, E);
    NarrowedSize(st, st1);
    NarrowedOk(g, st, st1);
    var st2, c2 := CullSources(st1, g);
    assert Narrowed(st1, st2) by {
      CullSourcesKeepsWalks(st1, E);
    }
    NarrowedSize(st1, st2);
    NarrowedOk(g, st1, st2);
    var st3, c3 := RemoveRedundantInternal(st2, g);
    exact := DropsExactly(E, st2, 1);
    ListPasses(E, st);
    if SingletonMiddles(st) {
      NarrowedSingle(st, st1);
      NarrowedSingle(st1, st2);
      SingleDrops(E, st2, 1);
    }
    if Separated(E, st) {
      SeparatedIsEmptied(E, st);
    }
    st', changed := st3, c1 || c2 || c3;
    if !changed {
      UnchangedIsSettled(E, st, st1, st2);
    }
  }

  lemma NarrowedSingle(st: Waypoints, st': Waypoints)
    requires SingletonMiddles(st) && Narrowed(st, st')
    ensures SingletonMiddles(st')
  {
    forall j | 1 <= j < |st'| - 1
      ensures |st'[j]| <= 1
    {
      SubsetSize(st'[j], st[j]);
    }
  }

  lemma {:induction false} SingleDrops(E: set<Edge>, st: Waypoints, i: nat)
    requires 1 <= i && SingletonMiddles(st)
    ensures SingletonMiddles(DropRedundant(E, st, i))
    decreases |st| - i
  {
    if i + 1 < |st| {
      if Bypassed(E, st[i - 1], st[i], st[i + 1]) {
        SingleDrops(E, st, i + 1);
      } else {
        var r := Drop(st, i);
        forall j | 1 <= j < |r| - 1
          ensures |r[j]| <= 1
        {
          assert r[j] == if j < i then st[j] else st[j + 1];
        }
        SingleDrops(E, r, i);
      }
    }
  }

  lemma CulledKeepsWalks(E: set<Edge>, st: Waypoints)
    requires |st| >= 1
    ensures SameWalks(E, st, Culled(E, st)) && (Apart(st) ==> Apart(Culled(E, st)))
  {
    CullUnreachablesKeepsWalks(st, E);
    CullSourcesKeepsWalks(Staged(E, st), E);
    if Apart(st) {
      NarrowedApart(st, Staged(E, st));
      NarrowedApart(Staged(E, st), Culled(E, st));
    }
  }

  lemma ListPasses(E: set<Edge>, st: Waypoints)
    requires |st| >= 1
    ensures var st' := DropRedundant(E, Culled(E, st), 1);
            && Passes(E, st, st') && (DropsExactly(E, Culled(E, st), 1) <==> SameWalks(E, st, st'))
            && (Apart(st) ==> Apart(st') && DropsExactly(E, Culled(E, st), 1))
  {
    var mid := Culled(E, st);
    CulledKeepsWalks(E, st);
    DropsAreExactIff(E, mid, 1);
    forall p | Admits(p, mid)
      ensures Admits(p, DropRedundant(E, mid, 1))
    {
      DropRedundantKeepsWalks(E, mid, 1, p);
    }
    if Apart(st) {
      ApartIsExact(E, mid, 1);
    }
  }

  lemma NarrowedOk(g: IdxGraph, st: Waypoints, st': Waypoints)
    requires ListOk(g, st) && Narrowed(st, st')
    ensures ListOk(g, st')
  {
    forall j, v | 0 <= j < |st'| && v in st'[j]
      ensures v < |g|
    {
      assert v in st[j];
    }
  }

  /** How far one or more passes have come from the lists `sts`. */
  ghost predicate Simplified(g: IdxGraph, sts: seq<Waypoints>, out: seq<Waypoints>, exact: bool) {
    && ListsOk(g, out) && |out| <= |sts|
    && Covered(Edges(g), sts, out)
    && (exact ==> Covered(Edges(g), out, sts))
    && (forall n: nat :: AllShort(sts, n) ==> AllShort(out, n))
    && (AllApart(sts) ==> AllApart(out) && exact)
    && (|sts| <= 1 && AllSingle(sts) ==> AllSingle(out))
  }

  lemma SimplifiedFurther(g: IdxGraph, sts: seq<Waypoints>, mid: seq<Waypoints>, out: seq<Waypoints>, e1: bool, e2: bool)
    requires Simplified(g, sts, mid, e1) && Simplified(g, mid, out, e2)
    ensures Simplified(g, sts, out, e1 && e2)
  {
  }

  /** A pass that keeps the walks and makes no list of a new length. */
  lemma SameWalksSimplified(g: IdxGraph, sts: seq<Waypoints>, out: seq<Waypoints>)
    requires ListsOk(g, out) && |out| <= |sts| && forall p :: AdmitsAny(p, out) <==> AdmitsAny(p, sts)
    requires (forall n: nat :: AllShort(sts, n) ==> AllShort(out, n)) && (AllApart(sts) ==> AllApart(out))
    requires |sts| <= 1 && AllSingle(sts) ==> AllSingle(out)
    ensures Simplified(g, sts, out, true)
  {
  }

  lemma ListSimplified(g: IdxGraph, sts: seq<Waypoints>, i: nat, st: Waypoints, exact: bool)
    requires ListsOk(g, sts) && i < |sts| && ListOk(g, st) && |st| <= |sts[i]|
    requires Passes(Edges(g), sts[i], st) && (exact ==> SameWalks(Edges(g), sts[i], st))
    requires (Apart(sts[i]) ==> Apart(st) && exact) && (SingletonMiddles(sts[i]) ==> SingletonMiddles(st))
    ensures Simplified(g, sts, sts[i := st], exact)
  {
    var out := sts[i := st];
    assert sts[i] in sts;
    forall l | l in out
      ensures ListOk(g, l) && (AllApart(sts) ==> Apart(l)) && (AllSingle(sts) ==> SingletonMiddles(l))
      ensures forall n: nat :: AllShort(sts, n) ==> |l| <= n
    {
      assert l == st || l in sts;
    }
    forall p | IsWalk(Edges(g), p)
      ensures AdmitsAny(p, sts) ==> AdmitsAny(p, out)
      ensures exact && AdmitsAny(p, out) ==> AdmitsAny(p, sts)
    {
      if j :| 0 <= j < |sts| && Admits(p, sts[j]) {
        assert Admits(p, out[j]);
      }
      if j :| 0 <= j < |out| && Admits(p, out[j]) {
        assert exact ==> Admits(p, sts[j]);
      }
    }
  }

  /** The first n lists are settled. */
  ghost predicate AllSettled(E: set<Edge>, sts: seq<Waypoints>, n: nat)
    requires n <= |sts|
  {
    forall j :: 0 <= j < n ==> Settled(E, sts[j])
  }

  lemma SettledNext(E: set<Edge>, sts: seq<Waypoints>, n: nat)
    requires n < |sts| && AllSettled(E, sts, n) && Settled(E, sts[n])
    ensures AllSettled(E, sts, n + 1)
  {
  }

  /** The passes over one list, for the loop over all of them. */
  method OptimizeOne(st: Waypoints, g: IdxGraph) returns (st': Waypoints, changed: bool, ghost exact: bool)
    requires WellFormed(g) && ListOk(g, st)
    ensures ListOk(g, st') && |st'| <= |st|
    ensures Passes(Edges(g), st, st') && (exact ==> SameWalks(Edges(g), st, st'))
    ensures (Apart(st) ==> Apart(st') && exact) && (SingletonMiddles(st) ==> SingletonMiddles(st'))
    ensures Separated(Edges(g), st) ==> HasEmptySet(st')
    ensures if changed then SetsSize(st') < SetsSize(st) else st' == st && Settled(Edges(g), st)
  {
    st', changed, exact := OptimizeList(st, g);
  }

  lemma ListReplaced(g: IdxGraph, sts: seq<Waypoints>, out: seq<Waypoints>, i: nat, st: Waypoints, exact: bool, e: bool)
    requires i < |out| && Simplified(g, sts, out, exact) && ListOk(g, st) && |st| <= |out[i]|
    requires Passes(Edges(g), out[i], st) && (e ==> SameWalks(Edges(g), out[i], st))
    requires (Apart(out[i]) ==> Apart(st) && e) && (SingletonMiddles(out[i]) ==> SingletonMiddles(st))
    ensures Simplified(g, sts, out[i := st], exact && e)
    ensures Size(out[i := st]) + SetsSize(out[i]) == Size(out) + SetsSize(st)
  {
    ListSimplified(g, out, i, st, e);
    SimplifiedFurther(g, sts, out, out[i := st], exact, e);
    SizeUpdate(out, i, st);
  }

  method OptimizeLists(sts: seq<Waypoints>, g: IdxGraph) returns (out: seq<Waypoints>, changed: bool, ghost exact: bool)
    requires WellFormed(g) && ListsOk(g, sts)
    ensures Simplified(g, sts, out, exact)
    ensures if changed then Size(out) < Size(sts) else out == sts && AllSettled(Edges(g), sts, |sts|)
    ensures AllSeparated(Edges(g), sts) ==> forall j :: 0 <= j < |out| ==> HasEmptySet(out[j])
  {
    out, changed, exact := sts, false, true;
    Unchanged(g, sts);
    for i := 0 to |sts|
      invariant |out| == |sts| && Simplified(g, sts, out, exact)
      invariant if changed then Size(out) < Size(sts) else out == sts
      invariant !changed ==> AllSettled(Edges(g), sts, i)
      invariant forall j :: i <= j < |sts| ==> out[j] == sts[j]
      invariant AllSeparated(Edges(g), sts) ==> forall j :: 0 <= j < i ==> HasEmptySet(out[j])
    {
      var list := out[i];
      assert list in out;
      var st, c, e := OptimizeOne(list, g);
      if c {
        ListReplaced(g, sts, out, i, st, exact, e);
        out, changed, exact := out[i := st], true, exact && e;
      }
      if !changed {
        SettledNext(Edges(g), sts, i);
      }
    }
  }

  lemma Unchanged(g: IdxGraph, sts: seq<Waypoints>)
    requires ListsOk(g, sts)
    ensures Simplified(g, sts, sts, true)
  {
  }

  /** One round of passes: joins, the passes over single lists, the removal of dead lists and of duplicates. */
  method OptimizeRound(sts: seq<Waypoints>, g: IdxGraph) returns (out: seq<Waypoints>, changed: bool, ghost exact: bool)
    requires WellFormed(g) && ListsOk(g, sts)
    ensures Simplified(g, sts, out, exact)
    ensures Size(out) <= Size(sts) && (changed ==> Size(out) < Size(sts))
    ensures !changed ==> Irreducible(Edges(g), out)
    ensures AllSeparated(Edges(g), sts) ==> out == []
  {
    var joined, c1 := JoinLists(sts, g);
    var local, c2, e := OptimizeLists(joined, g);
    var once, c3 := DropLists(local, g);
    assert Simplified(g, sts, once, e) by {
      SimplifiedFurther(g, sts, joined, local, true, e);
      SimplifiedFurther(g, sts, local, once, e, true);
    }
    out, changed, exact := once, c1 || c2 || c3, e;
    if !changed {
      assert local == joined;
      NothingLeftToDo(Edges(g), joined, once);
    }
  }

  method JoinLists(sts: seq<Waypoints>, g: IdxGraph) returns (out: seq<Waypoints>, changed: bool)
    requires ListsOk(g, sts)
    ensures Simplified(g, sts, out, true) && Size(out) <= Size(sts)
    ensures if changed then Size(out) < Size(sts) else Unjoinable(out)
    ensures AllSeparated(Edges(g), sts) ==> AllSeparated(Edges(g), out)
  {
    out, changed := Join(sts);
    JoinIsSimplified(g, sts, out);
    if AllSeparated(Edges(g), sts) {
      SeparatedStay(Edges(g), sts, out);
    }
  }

  lemma JoinIsSimplified(g: IdxGraph, sts: seq<Waypoints>, joined: seq<Waypoints>)
    requires ListsOk(g, sts) && JoinOf(sts, joined)
    ensures Simplified(g, sts, joined, true)
  {
    JoinedOk(g, sts, joined);
    SameWalksSimplified(g, sts, joined);
  }

  lemma NothingLeftToDo(E: set<Edge>, joined: seq<Waypoints>, out: seq<Waypoints>)
    requires Unjoinable(joined) && (forall st :: st in out ==> st in joined)
    requires AllSettled(E, joined, |joined|)
    requires forall st :: st in out ==> !HasEmptySet(st)
    requires forall i, j :: 0 <= i < j < |out| ==> out[i] != out[j]
    ensures Irreducible(E, out)
  {
    forall st | st in out
      ensures ListIrreducible(E, st)
    {
      var j :| 0 <= j < |joined| && joined[j] == st;
      assert Settled(E, joined[j]);
      SettledIsIrreducible(E, st);
    }
    forall i, j | 0 <= i < j < |out| && |out[i]| == |out[j]|
      ensures FarApart(out[i], out[j])
    {
      UnjoinableIsFarApart(joined, out[i], out[j]);
    }
  }

  /** The removal of dead lists and of duplicates. */
  method DropLists(sts: seq<Waypoints>, g: IdxGraph) returns (out: seq<Waypoints>, changed: bool)
    requires ListsOk(g, sts)
    ensures Simplified(g, sts, out, true) && (forall st :: st in out ==> !HasEmptySet(st))
    ensures forall i, j :: 0 <= i < j < |out| ==> out[i] != out[j]
    ensures Size(out) <= Size(sts) && (if changed then Size(out) < Size(sts) else forall st :: st in out <==> st in sts)
    ensures (forall j :: 0 <= j < |sts| ==> HasEmptySet(sts[j])) ==> out == []
  {
    var live, c1 := RemoveEmptySets(sts);
    forall p
      ensures AdmitsAny(p, live) <==> AdmitsAny(p, sts)
    {
      RemoveEmptySetsKeepsWalks(sts, live, p);
    }
    RemoveEmptySetsKeepsWalks(sts, live, []);
    if live != [] {
      assert live[0] in sts && !HasEmptySet(live[0]);
    }
    SameWalksSimplified(g, sts, live);
    var once, c2 := RemoveDuplicates(live);
    SameMembers(live, once);
    SameWalksSimplified(g, live, once);
    SimplifiedFurther(g, sts, live, once, true, true);
    assert once != [] ==> once[0] in live;
    out, changed := once, c1 || c2;
  }

  lemma SameMembers(a: seq<Waypoints>, b: seq<Waypoints>)
    requires forall st :: st in a <==> st in b
    ensures forall p :: AdmitsAny(p, b) <==> AdmitsAny(p, a)
  {
    forall p
      ensures AdmitsAny(p, b) <==> AdmitsAny(p, a)
    {
      if i :| 0 <= i < |a| && Admits(p, a[i]) {
        assert a[i] in b;
      }
      if i :| 0 <= i < |b| && Admits(p, b[i]) {
        assert b[i] in a;
      }
    }
  }

  lemma JoinedOk(g: IdxGraph, sts: seq<Waypoints>, joined: seq<Waypoints>)
    requires ListsOk(g, sts) && JoinOf(sts, joined)
    ensures ListsOk(g, joined) && forall n: nat :: AllShort(sts, n) ==> AllShort(joined, n)
  {
    assert AllBelow(sts, |g|);
    forall st | st in joined
      ensures ListOk(g, st) && forall n: nat :: AllShort(sts, n) ==> |st| <= n
    {
      var st' :| st' in sts && |st'| == |st|;
      assert ListOk(g, st') && Below(st, |g|);
    }
  }

  /** The passes until a round changes nothing. */
  method OptimizeSts(sts: seq<Waypoints>, g: IdxGraph) returns (out: seq<Waypoints>, ghost exact: bool)
    requires WellFormed(g) && ListsOk(g, sts)
    ensures Simplified(g, sts, out, exact)
    ensures Irreducible(Edges(g), out) && (AllSeparated(Edges(g), sts) ==> out == [])
  {
    out, exact := sts, true;
    Unchanged(g, sts);
    var changed := true;
    while changed
      invariant Simplified(g, sts, out, exact)
      invariant !changed ==> Irreducible(Edges(g), out)
      invariant AllSeparated(Edges(g), sts) ==> AllSeparated(Edges(g), out) && (!changed ==> out == [])
      decreases Size(out), changed
    {
      var next, c, e := OptimizeRound(out, g);
      SimplifiedFurther(g, sts, out, next, exact, e);
      out, changed, exact := next, c, exact && e;
    }
  }

  /**
   * Edges that separate all the simplified lists separate all the original ones. Both ways when no walk was added,
   * and so for lists in which no two sets from the second on share a node.
   */
  lemma SeparatingSimplified(g: IdxGraph, sts: seq<Waypoints>, out: seq<Waypoints>, exact: bool, cut: set<Edge>)
    requires Simplified(g, sts, out, exact)
    ensures (forall st :: st in out ==> Separates(g, cut, st)) ==> forall st :: st in sts ==> Separates(g, cut, st)
    ensures (exact || AllApart(sts)) && (forall st :: st in sts ==> Separates(g, cut, st)) ==>
              forall st :: st in out ==> Separates(g, cut, st)
  {
    if forall st :: st in out ==> Separates(g, cut, st) {
      SeparatingCovered(g, sts, out, cut);
    }
    if exact && forall st :: st in sts ==> Separates(g, cut, st) {
      SeparatingCovered(g, out, sts, cut);
    }
  }

  lemma SeparatingCovered(g: IdxGraph, sts: seq<Waypoints>, out: seq<Waypoints>, cut: set<Edge>)
    requires Covered(Edges(g), sts, out) && forall st :: st in out ==> Separates(g, cut, st)
    ensures forall st :: st in sts ==> Separates(g, cut, st)
  {
    forall st, p | st in sts && IsWalk(Edges(g) - cut, p)
      ensures !Admits(p, st)
    {
      WalkWithMoreEdges(Edges(g) - cut, Edges(g), p);
      forall j | 0 <= j < |out|
        ensures !Admits(p, out[j])
      {
        assert out[j] in out;
      }
      assert !AdmitsAny(p, out);
      var i :| 0 <= i < |sts| && sts[i] == st;
      assert !Admits(p, sts[i]);
    }
  }
}
