/**
 * The greedy driver: one cut per waypoint list, recomputed list by list against the graph without the
 * other cuts until no cut changes, first by replacing cuts and in the end by only adding to them.
 */
module MinCutGreedy {
  import opened Graphs
  import opened Waypoints
  import opened ScopedGraphs
  import opened Weights
  import opened Residual
  import opened SimpleWalks
  import opened EdgeLists
  import opened Runs
  import opened DriverRuns
  import opened FordFulkerson
  import opened Simplify
  import opened Dropping
  import opened Joining
  import opened IrreducibleLists
  import opened Optimize

  // ---------------------------------------------------------------------------------
  // Putting edges back into the working graph and taking them out

  lemma RestoreOne(orig: IdxGraph, removed: set<Edge>, e: Edge)
    requires e in Edges(orig) && e in removed
    ensures var g := Minus(orig, removed);
            && e.dst !in g[e.src]
            && g[e.src := With(g[e.src], e.dst, orig[e.src][e.dst])] == Minus(orig, removed - {e})
  {
    var g := Minus(orig, removed);
    var back, want := g[e.src := With(g[e.src], e.dst, orig[e.src][e.dst])], Minus(orig, removed - {e});
    forall u | 0 <= u < |orig|
      ensures back[u] == want[u]
    {
      if u == e.src {
        forall v
          ensures v in back[u] <==> v in want[u]
        {
          assert Edge(u, v) in removed - {e} <==> Edge(u, v) in removed && v != e.dst;
        }
      } else {
        assert forall v :: Edge(u, v) in removed - {e} <==> Edge(u, v) in removed;
      }
    }
  }

  lemma RemoveOne(orig: IdxGraph, removed: set<Edge>, e: Edge)
    requires e.src < |orig|
    ensures var g := Minus(orig, removed);
            g[e.src := Without(g[e.src], e.dst)] == Minus(orig, removed + {e})
  {
    var g := Minus(orig, removed);
    var less, want := g[e.src := Without(g[e.src], e.dst)], Minus(orig, removed + {e});
    forall u | 0 <= u < |orig|
      ensures less[u] == want[u]
    {
      forall v
        ensures v in less[u] <==> v in want[u]
      {
      }
    }
  }

  /** Puts the edges of an old cut back into the graph, with their original weights. */
  method Restore(g: IdxGraph, orig: IdxGraph, cut: seq<Edge>, ghost removed: set<Edge>) returns (g': IdxGraph)
    requires g == Minus(orig, removed) && ToSet(cut) <= removed && ToSet(cut) <= Edges(orig) && NoDuplicates(cut)
    ensures g' == Minus(orig, removed - ToSet(cut))
  {
    g' := g;
    ghost var gone := removed;
    for i := 0 to |cut|
      invariant g' == Minus(orig, gone) && gone == removed - ToSet(cut[..i])
    {
      var e := cut[i];
      assert e in ToSet(cut);
      assert ToSet(cut[..i + 1]) == ToSet(cut[..i]) + {e} by {
        assert cut[..i + 1] == cut[..i] + [e];
      }
      assert e in gone;
      RestoreOne(orig, gone, e);
      g' := g'[e.src := With(g'[e.src], e.dst, orig[e.src][e.dst])];
      gone := gone - {e};
    }
    assert cut[..|cut|] == cut;
  }

  method Remove(g: IdxGraph, ghost orig: IdxGraph, cut: seq<Edge>, ghost removed: set<Edge>) returns (g': IdxGraph)
    requires g == Minus(orig, removed) && forall e :: e in cut ==> e.src < |orig|
    ensures g' == Minus(orig, removed + ToSet(cut))
  {
    g' := g;
    ghost var gone := removed;
    for i := 0 to |cut|
      invariant g' == Minus(orig, gone) && gone == removed + ToSet(cut[..i])
    {
      var e := cut[i];
      assert e in cut;
      assert ToSet(cut[..i + 1]) == ToSet(cut[..i]) + {e} by {
        assert cut[..i + 1] == cut[..i] + [e];
      }
      RemoveOne(orig, gone, e);
      g' := g'[e.src := Without(g'[e.src], e.dst)];
      gone := gone + {e};
    }
    assert cut[..|cut|] == cut;
  }

  // ---------------------------------------------------------------------------------
  // One list

  /** The new cut of a list: in Augment mode the old one and what is still missing. */
  ghost predicate NewCut(orig: IdxGraph, cuts: CutLists, i: nat, mode: Mode, cut: seq<Edge>)
    requires i < |cuts|
  {
    && StrictlyAscending(cut) && ToSet(cut) <= Edges(orig) && ToSet(cut) !! Others(cuts, i)
    && (mode.Augment? ==> ToSet(cuts[i]) <= ToSet(cut))
  }

  lemma MinusTwice(orig: IdxGraph, removed: set<Edge>, cut: set<Edge>, W: Waypoints)
    requires Separates(Minus(orig, removed), cut, W)
    ensures Separates(orig, removed + cut, W)
  {
    MinusEdges(orig, removed);
    assert Edges(orig) - removed - cut == Edges(orig) - (removed + cut);
  }

  lemma SumOfMinus(orig: IdxGraph, removed: set<Edge>)
    ensures SumW(Minus(orig, removed), Edges(Minus(orig, removed))) <= SumW(orig, Edges(orig))
    ensures PairsFit(orig) ==> PairsFit(Minus(orig, removed))
  {
    MinusEdges(orig, removed);
    SameSum(orig, Minus(orig, removed), Edges(orig) - removed);
    SumMonotone(orig, Edges(orig) - removed, Edges(orig));
    if PairsFit(orig) {
      forall e: Edge {:trigger Rev(e)} | e != Rev(e)
        ensures Weight(Minus(orig, removed), e) + Weight(Minus(orig, removed), Rev(e)) < TWO_TO_THE_32
      {
        MinusWeighs(orig, removed, e);
        MinusWeighs(orig, removed, Rev(e));
      }
    }
  }

  lemma MinusWeighs(orig: IdxGraph, removed: set<Edge>, e: Edge)
    ensures Weight(Minus(orig, removed), e) <= Weight(orig, e)
  {
  }

  lemma {:induction false} SameSum(g: IdxGraph, h: IdxGraph, E: set<Edge>)
    requires forall e :: e in E ==> Weight(h, e) == Weight(g, e)
    ensures SumW(h, E) == SumW(g, E)
    decreases E
  {
    if E != {} {
      var c :| c in E;
      SumWithout(g, E, c);
      SumWithout(h, E, c);
      SameSum(g, h, E - {c});
    }
  }

  /** Two sorted lists of the same edges are equal, so comparing vectors compares cuts. */
  lemma {:induction false} SortedListsAreEqual(a: seq<Edge>, b: seq<Edge>)
    requires StrictlyAscending(a) && StrictlyAscending(b) && ToSet(a) == ToSet(b)
    ensures a == b
  {
    assert b != [] ==> b[0] in ToSet(a);
    if a != [] {
      assert a[0] in ToSet(b) && a[0] in a;
      assert b != [];
      assert b[0] in ToSet(a);
      var i :| 0 <= i < |a| && a[i] == b[0];
      var j :| 0 <= j < |b| && b[j] == a[0];
      assert a[0] == b[0];
      TailSet(a);
      TailSet(b);
      SortedListsAreEqual(a[1..], b[1..]);
      assert a == [a[0]] + a[1..] && b == [b[0]] + b[1..];
    }
  }

  lemma TailSet(a: seq<Edge>)
    requires StrictlyAscending(a) && a != []
    ensures ToSet(a[1..]) == ToSet(a) - {a[0]} && StrictlyAscending(a[1..])
  {
    assert a == [a[0]] + a[1..];
    forall e | e in a[1..]
      ensures e != a[0]
    {
      var i :| 0 <= i < |a[1..]| && a[1..][i] == e;
      assert Less(a[0], a[i + 1]);
    }
  }

  /** The concatenation that is sorted has no duplicates: nothing found is in the old cut. */
  lemma NothingTwice(results: seq<Edge>, oldcut: seq<Edge>)
    requires StrictlyAscending(results) && StrictlyAscending(oldcut) && ToSet(results) !! ToSet(oldcut)
    ensures NoDuplicates(results + oldcut) && ToSet(results + oldcut) == ToSet(results) + ToSet(oldcut)
  {
    StrictIsDistinct(results);
    StrictIsDistinct(oldcut);
    forall i, j | 0 <= i < |results| && 0 <= j < |oldcut|
      ensures results[i] != oldcut[j]
    {
      assert results[i] in ToSet(results) && oldcut[j] in ToSet(oldcut);
    }
  }

  /** What the new cut has in addition to the results. */
  function Kept(oldcut: seq<Edge>, mode: Mode): seq<Edge> {
    if mode.Augment? then oldcut else []
  }

  /** The new cut as a vector: in Augment mode with the old cut appended, then sorted and made unique in place. */
  method CutVector(results: seq<Edge>, oldcut: seq<Edge>, mode: Mode) returns (cut: seq<Edge>)
    requires StrictlyAscending(results) && StrictlyAscending(oldcut)
    requires mode.Augment? ==> ToSet(results) !! ToSet(oldcut)
    ensures StrictlyAscending(cut) && ToSet(cut) == ToSet(results) + ToSet(Kept(oldcut, mode))
  {
    NothingTwice(results, Kept(oldcut, mode));
    cut := results + Kept(oldcut, mode);
    SortNoDuplicates(cut);
    UniqueOfDistinct(Sort(cut));
    assert ToSet(Sort(cut)) == ToSet(cut);
    cut := UniqueInPlace(Sort(cut));
  }

  /** What is missing from the working graph while list i is recomputed. */
  ghost function Missing(cuts: CutLists, i: nat, mode: Mode): set<Edge> {
    if mode.Replace? then Others(cuts, i) else Union(cuts)
  }

  lemma MissingIsRemoved(orig: IdxGraph, cuts: CutLists, i: nat, mode: Mode)
    requires CutsOk(orig, cuts) && i < |cuts|
    ensures Missing(cuts, i, mode) <= Edges(orig)
    ensures Missing(cuts, i, mode) == Others(cuts, i) + ToSet(Kept(cuts[i], mode))
    ensures Union(cuts) - ToSet(cuts[i]) == Others(cuts, i)
    ensures ToSet(cuts[i]) <= Union(cuts)
  {
    UnionSplits(cuts, i);
    OwnAndOthers(orig, cuts, i);
    assert ToSet([]) == {};
  }

  /** The cut found in what is left of the graph, together with what is missing, is the union of the new cuts. */
  lemma FoundCut(orig: IdxGraph, cuts: CutLists, i: nat, mode: Mode, results: seq<Edge>, cut: seq<Edge>, st: Waypoints)
    requires CutsOk(orig, cuts) && i < |cuts|
    requires ToSet(results) <= Edges(Minus(orig, Missing(cuts, i, mode)))
    requires Separates(Minus(orig, Missing(cuts, i, mode)), ToSet(results), st)
    requires StrictlyAscending(cut) && ToSet(cut) == ToSet(results) + ToSet(Kept(cuts[i], mode))
    ensures NewCut(orig, cuts, i, mode, cut)
    ensures Missing(cuts, i, mode) + ToSet(cut) == Union(cuts[i := cut])
    ensures Separates(orig, Union(cuts[i := cut]), st)
  {
    MissingIsRemoved(orig, cuts, i, mode);
    OwnAndOthers(orig, cuts, i);
    MinusEdges(orig, Missing(cuts, i, mode));
    UpdateCut(cuts, i, cut);
    MinusTwice(orig, Missing(cuts, i, mode), ToSet(results), st);
    assert Missing(cuts, i, mode) + ToSet(results) == Union(cuts[i := cut]);
  }

  lemma FoundIsRecut(orig: IdxGraph, cuts: CutLists, i: nat, mode: Mode, results: seq<Edge>, cut: seq<Edge>, st: Waypoints)
    requires i < |cuts| && |st| >= 1 && CutOfRun(Minus(orig, Missing(cuts, i, mode)), st, ToSet(results))
    requires StrictlyAscending(cut) && ToSet(cut) == ToSet(results) + ToSet(Kept(cuts[i], mode))
    ensures Recut(orig, st, cuts, i, mode, cut)
  {
    assert mode.Replace? ==> ToSet(cut) == ToSet(results);
  }

  /** A cut of one list. Of the runs of the residual loop only those between singletons matter here. */
  method FindCut(g: IdxGraph, st: Waypoints, fuel: nat) returns (done: bool, results: seq<Edge>)
    requires |st| >= 2 && WellFormed(g) && WaypointsOf(g, st)
    ensures done ==> StrictlyAscending(results) && ToSet(results) <= Edges(g) && Separates(g, ToSet(results), st)
    ensures Separated(Edges(g), st) ==> results == []
    ensures done ==> CutOfRun(g, st, ToSet(results))
    ensures done && SingletonMiddles(st) && PairsFit(g) ==> NearMinimal(g, st, ToSet(results))
    ensures SingletonMiddles(st) && PairsFit(g) && fuel > SumW(g, Edges(g)) ==> done
  {
    ghost var run;
    done, results, run := FordFulkersonMulti(g, st, fuel);
  }

  lemma FoundIsNew(orig: IdxGraph, cuts: CutLists, i: nat, mode: Mode, results: seq<Edge>, cut: seq<Edge>, st: Waypoints)
    requires CutsOk(orig, cuts) && i < |cuts| && |st| >= 1
    requires ToSet(results) <= Edges(Minus(orig, Missing(cuts, i, mode)))
    requires Separates(Minus(orig, Missing(cuts, i, mode)), ToSet(results), st)
    requires CutOfRun(Minus(orig, Missing(cuts, i, mode)), st, ToSet(results))
    requires StrictlyAscending(cut) && ToSet(cut) == ToSet(results) + ToSet(Kept(cuts[i], mode))
    ensures NewCut(orig, cuts, i, mode, cut) && Recut(orig, st, cuts, i, mode, cut)
    ensures Missing(cuts, i, mode) + ToSet(cut) == Union(cuts[i := cut]) && Separates(orig, Union(cuts[i := cut]), st)
    ensures mode.Replace? ==> ToSet(cut) == ToSet(results)
    ensures mode.Augment? && results == [] ==> cut == cuts[i]
  {
    FoundIsRecut(orig, cuts, i, mode, results, cut, st);
    FoundCut(orig, cuts, i, mode, results, cut, st);
    if mode.Augment? && results == [] {
      SortedListsAreEqual(cut, cuts[i]);
    }
  }

  /** The new cut of list i, found in the graph without what is missing. */
  method NewCutOf(ghost orig: IdxGraph, g: IdxGraph, st: Waypoints, cuts: CutLists, i: nat, mode: Mode, fuel: nat)
    returns (done: bool, cut: seq<Edge>)
    requires WellFormed(orig) && ListOk(orig, st) && CutsOk(orig, cuts) && i < |cuts|
    requires g == Minus(orig, Missing(cuts, i, mode))
    ensures done ==> NewCut(orig, cuts, i, mode, cut) && Recut(orig, st, cuts, i, mode, cut)
    ensures done ==> Missing(cuts, i, mode) + ToSet(cut) == Union(cuts[i := cut]) && Separates(orig, Union(cuts[i := cut]), st)
    ensures done && mode.Replace? && SingletonMiddles(st) && PairsFit(orig) ==> NearMinimal(g, st, ToSet(cut))
    ensures done && mode.Augment? && Separates(orig, Union(cuts), st) ==> cut == cuts[i]
    ensures SingletonMiddles(st) && PairsFit(orig) && fuel > SumW(orig, Edges(orig)) ==> done
  {
    assert WellFormed(g) && Edges(g) == Edges(orig) - Missing(cuts, i, mode) by {
      MinusEdges(orig, Missing(cuts, i, mode));
    }
    assert (PairsFit(orig) ==> PairsFit(g)) && SumW(g, Edges(g)) <= SumW(orig, Edges(orig)) by {
      SumOfMinus(orig, Missing(cuts, i, mode));
    }
    var results;
    done, results := FindCut(g, st, fuel);
    cut := [];
    if !done {
      return;
    }
    assert mode.Augment? ==> ToSet(results) !! ToSet(cuts[i]) by {
      MissingIsRemoved(orig, cuts, i, mode);
    }
    cut := CutVector(results, cuts[i], mode);
    FoundIsNew(orig, cuts, i, mode, results, cut, st);
  }

  /** Recomputes the cut of list i against the graph without the other cuts. */
  method RecomputeCut(orig: IdxGraph, g: IdxGraph, st: Waypoints, cuts: CutLists, i: nat, mode: Mode, fuel: nat)
    returns (done: bool, g': IdxGraph, cut: seq<Edge>)
    requires WellFormed(orig) && ListOk(orig, st) && CutsOk(orig, cuts) && i < |cuts|
    requires g == Minus(orig, Union(cuts))
    ensures done ==> NewCut(orig, cuts, i, mode, cut) && Recut(orig, st, cuts, i, mode, cut)
    ensures done ==> g' == Minus(orig, Union(cuts[i := cut])) && Separates(orig, Union(cuts[i := cut]), st)
    ensures done && mode.Replace? && SingletonMiddles(st) && PairsFit(orig) ==>
              NearMinimal(Minus(orig, Others(cuts, i)), st, ToSet(cut))
    ensures done && mode.Augment? && Separates(orig, Union(cuts), st) ==> cut == cuts[i]
    ensures SingletonMiddles(st) && PairsFit(orig) && fuel > SumW(orig, Edges(orig)) ==> done
  {
    MissingIsRemoved(orig, cuts, i, mode);
    g' := g;
    if mode.Replace? {
      StrictIsDistinct(cuts[i]);
      g' := Restore(g', orig, cuts[i], Union(cuts));
    }
    done, cut := NewCutOf(orig, g', st, cuts, i, mode, fuel);
    if done {
      forall e | e in cut
        ensures e.src < |orig|
      {
        assert e in ToSet(cut);
        EdgesAreWeighted(orig, e);
      }
      g' := Remove(g', orig, cut, Missing(cuts, i, mode));
    }
  }

  // ---------------------------------------------------------------------------------
  // One pass over all lists

  /** List j is separated; in Replace mode its cut is near minimal among the cuts of what the others leave. */
  ghost predicate Served(orig: IdxGraph, sts: seq<Waypoints>, cuts: CutLists, mode: Mode, j: nat)
    requires j < |sts| == |cuts| && |sts[j]| >= 1
  {
    && Separates(orig, Union(cuts), sts[j])
    && (mode.Replace? ==> CutOfRun(Minus(orig, Others(cuts, j)), sts[j], ToSet(cuts[j])))
    && (mode.Replace? && SingletonMiddles(sts[j]) && PairsFit(orig) ==>
          NearMinimal(Minus(orig, Others(cuts, j)), sts[j], ToSet(cuts[j])))
  }

  /** Every middle set of every list has at most one node, and opposite weights fit: then each cut is found. */
  ghost predicate Solvable(orig: IdxGraph, sts: seq<Waypoints>, fuel: nat) {
    && (forall st :: st in sts ==> SingletonMiddles(st))
    && PairsFit(orig) && fuel > SumW(orig, Edges(orig))
  }

  /** The cuts only grow in Augment mode, and grow if they change. */
  ghost predicate Grown(before: CutLists, after: CutLists, mode: Mode) {
    mode.Augment? ==> Union(before) <= Union(after) && (before != after ==> Union(before) != Union(after))
  }

  lemma StepGrows(orig: IdxGraph, cuts: CutLists, i: nat, mode: Mode, cut: seq<Edge>)
    requires CutsOk(orig, cuts) && i < |cuts| && NewCut(orig, cuts, i, mode, cut)
    ensures Grown(cuts, cuts[i := cut], mode)
  {
    UnionSplits(cuts, i);
    UpdateCut(cuts, i, cut);
    OwnAndOthers(orig, cuts, i);
    if mode.Augment? && cuts != cuts[i := cut] {
      if ToSet(cut) == ToSet(cuts[i]) {
        SortedListsAreEqual(cut, cuts[i]);
      }
      assert ToSet(cut) != ToSet(cuts[i]);
    }
  }

  lemma CutDiffers(a: CutLists, b: CutLists, i: nat, cut: seq<Edge>)
    requires |a| == |b| && i < |a| && a[i] == b[i]
    ensures b[i := cut] != a <==> b != a || cut != a[i]
  {
    if b != a {
      var j :| 0 <= j < |a| && b[j] != a[j];
      assert b[i := cut][j] != a[j];
    }
  }

  /** A list that is alone has a cut near the minimum of the whole graph. */
  ghost predicate SoleIsNearMinimal(orig: IdxGraph, sts: seq<Waypoints>, cuts: CutLists) {
    |sts| == |cuts| == 1 && |sts[0]| >= 1 && SingletonMiddles(sts[0]) && PairsFit(orig) ==>
      NearMinimal(orig, sts[0], ToSet(cuts[0])) && Separates(orig, ToSet(cuts[0]), sts[0])
  }

  lemma SoleCut(orig: IdxGraph, cuts: CutLists)
    requires |cuts| == 1
    ensures Others(cuts, 0) == {} && Union(cuts) == ToSet(cuts[0]) && Minus(orig, {}) == orig
  {
    forall u | 0 <= u < |orig|
      ensures Minus(orig, {})[u] == orig[u]
    {
    }
  }

  ghost predicate ServedTo(orig: IdxGraph, sts: seq<Waypoints>, cuts: CutLists, mode: Mode, n: nat)
    requires n <= |sts| == |cuts| && ListsFor(sts)
  {
    forall j :: 0 <= j < n ==> Served(orig, sts, cuts, mode, j)
  }

  /** A cut that comes out as it was serves its list. */
  lemma UnchangedServes(orig: IdxGraph, sts: seq<Waypoints>, cuts: CutLists, mode: Mode, i: nat)
    requires i < |sts| == |cuts| && ListsFor(sts) && ServedTo(orig, sts, cuts, mode, i)
    requires Recut(orig, sts[i], cuts, i, mode, cuts[i]) && Separates(orig, Union(cuts), sts[i])
    requires mode.Replace? && SingletonMiddles(sts[i]) && PairsFit(orig) ==>
               NearMinimal(Minus(orig, Others(cuts, i)), sts[i], ToSet(cuts[i]))
    ensures ServedTo(orig, sts, cuts, mode, i + 1)
  {
    assert Served(orig, sts, cuts, mode, i);
  }

  /** What one recomputed cut makes of the state of the pass. */
  lemma CutUpdated(orig: IdxGraph, sts: seq<Waypoints>, before: CutLists, cuts: CutLists, i: nat, mode: Mode, cut: seq<Edge>)
    requires i < |sts| == |before| == |cuts| && ListsFor(sts) && CutsOk(orig, cuts) && before[i] == cuts[i]
    requires PassTo(orig, sts, before, i, mode, cuts) && Grown(before, cuts, mode)
    requires NewCut(orig, cuts, i, mode, cut) && Recut(orig, sts[i], cuts, i, mode, cut)
    ensures var after := cuts[i := cut];
            && PassTo(orig, sts, before, i + 1, mode, after) && Grown(before, after, mode) && CutsOk(orig, after)
            && Others(after, i) == Others(cuts, i) && (after != before <==> cuts != before || cut != before[i])
            && (|cuts| == 1 ==> after == [cut] && Others(cuts, 0) == {} && Union(after) == ToSet(cut) && Minus(orig, {}) == orig)
  {
    PassNext(orig, sts, before, cuts, i, mode, cut);
    StepGrows(orig, cuts, i, mode, cut);
    GrownFurther(before, cuts, cuts[i := cut], mode);
    UpdateOk(orig, cuts, i, cut);
    UpdateCut(cuts, i, cut);
    CutDiffers(before, cuts, i, cut);
    if |cuts| == 1 {
      SoleCut(orig, cuts);
      SoleCut(orig, [cut]);
      assert cuts[i := cut] == [cut];
    }
  }

  /** Recomputes the cut of every list once. */
  method RecomputeAll(orig: IdxGraph, g: IdxGraph, sts: seq<Waypoints>, cuts: CutLists, mode: Mode, fuel: nat)
    returns (done: bool, g': IdxGraph, cuts': CutLists, changed: bool)
    requires WellFormed(orig) && ListsOk(orig, sts) && |sts| == |cuts| && CutsOk(orig, cuts)
    requires g == Minus(orig, Union(cuts)) && (mode.Augment? ==> SoleIsNearMinimal(orig, sts, cuts))
    ensures done ==> SoleIsNearMinimal(orig, sts, cuts')
    ensures done ==> |cuts'| == |cuts| && CutsOk(orig, cuts') && g' == Minus(orig, Union(cuts'))
    ensures done ==> ListsFor(sts) && PassTo(orig, sts, cuts, |sts|, mode, cuts')
    ensures done ==> Grown(cuts, cuts', mode)
    ensures done ==> (changed <==> cuts' != cuts)
    ensures done && !changed ==>
              forall j :: 0 <= j < |sts| ==> |sts[j]| >= 1 && Served(orig, sts, cuts, mode, j)
    ensures Solvable(orig, sts, fuel) ==> done
  {
    done, g', cuts', changed := true, g, cuts, false;
    assert forall i :: 0 <= i < |sts| ==> sts[i] in sts;
    NoPass(orig, sts, cuts, mode);
    for i := 0 to |sts|
      invariant |cuts'| == |cuts| && CutsOk(orig, cuts') && g' == Minus(orig, Union(cuts'))
      invariant ListsFor(sts) && PassTo(orig, sts, cuts, i, mode, cuts')
      invariant Grown(cuts, cuts', mode)
      invariant i > 0 || mode.Augment? ==> SoleIsNearMinimal(orig, sts, cuts')
      invariant changed <==> cuts' != cuts
      invariant forall j :: i <= j < |cuts| ==> cuts'[j] == cuts[j]
      invariant !changed ==> ServedTo(orig, sts, cuts, mode, i)
    {
      assert sts[i] in sts;
      var found, g1, cut := RecomputeCut(orig, g', sts[i], cuts', i, mode, fuel);
      if !found {
        return false, g', cuts', changed;
      }
      CutUpdated(orig, sts, cuts, cuts', i, mode, cut);
      if cuts'[i] != cut {
        changed := true;
      } else {
        assert cuts'[i := cut] == cuts';
        if !changed {
          UnchangedServes(orig, sts, cuts, mode, i);
        }
      }
      g', cuts' := g1, cuts'[i := cut];
    }
  }

  lemma GrownFurther(a: CutLists, b: CutLists, c: CutLists, mode: Mode)
    requires Grown(a, b, mode) && Grown(b, c, mode)
    ensures Grown(a, c, mode)
    ensures mode.Augment? && (a != b || b != c) ==> a != c
  {
  }

  // ---------------------------------------------------------------------------------
  // Passes until nothing changes

  /** A sorted list of the edges of a set. */
  ghost function ListOf(E: set<Edge>): (s: seq<Edge>)
    ensures StrictlyAscending(s) && ToSet(s) == E
  {
    if E == {} then []
    else
      var e :| e in E;
      var rest := ListOf(E - {e});
      assert e !in rest by {
        assert e in rest ==> e in ToSet(rest);
      }
      StrictIsDistinct(rest);
      assert NoDuplicates([e] + rest);
      SortNoDuplicates([e] + rest);
      assert ToSet(Sort([e] + rest)) == {e} + ToSet(rest);
      Sort([e] + rest)
  }

  ghost function AllLists(E: set<Edge>): set<seq<Edge>> {
    set S | S <= E :: ListOf(S)
  }

  /** All tuples of n sorted lists of edges: there are finitely many. */
  ghost function AllCuts(E: set<Edge>, n: nat): set<CutLists> {
    if n == 0 then {[]} else set t, s | t in AllCuts(E, n - 1) && s in AllLists(E) :: t + [s]
  }

  lemma {:induction false} CutsAmongAll(orig: IdxGraph, cuts: CutLists)
    requires CutsOk(orig, cuts)
    ensures cuts in AllCuts(Edges(orig), |cuts|)
  {
    if cuts != [] {
      var n := |cuts| - 1;
      CutsAmongAll(orig, cuts[..n]);
      SortedListsAreEqual(cuts[n], ListOf(ToSet(cuts[n])));
      assert cuts[n] in AllLists(Edges(orig));
      assert cuts == cuts[..n] + [cuts[n]];
    }
  }

  lemma UnionIsEdges(orig: IdxGraph, cuts: CutLists)
    requires CutsOk(orig, cuts)
    ensures Union(cuts) <= Edges(orig)
  {
    forall e | e in Union(cuts)
      ensures e in Edges(orig)
    {
      var i :| 0 <= i < |cuts| && e in cuts[i];
      assert e in ToSet(cuts[i]);
    }
  }

  lemma NoCuts(orig: IdxGraph, n: nat) returns (cuts: CutLists)
    ensures cuts == seq(n, i => []) && CutsOk(orig, cuts) && Union(cuts) == {}
    ensures Minus(orig, Union(cuts)) == orig
  {
    cuts := seq(n, i => []);
    forall u | 0 <= u < |orig|
      ensures Minus(orig, {})[u] == orig[u]
    {
    }
  }

  /**
   * A cut for each list. Starts by replacing cuts, and turns to augmenting them when a state of all cuts
   * comes back or time is up; the clock is an arbitrary choice here.
   */
  method ComputeCuts(orig: IdxGraph, sts: seq<Waypoints>, fuel: nat) returns (done: bool, cuts: CutLists, mode: Mode, ghost d: Driver)
    requires WellFormed(orig) && ListsOk(orig, sts)
    ensures done ==> |cuts| == |sts| && CutsOk(orig, cuts)
    ensures done ==> ListsFor(sts) && IsDriver(orig, sts, d) && Ended(sts, d) && cuts == d.cuts && mode == d.mode
    ensures done ==> forall j :: 0 <= j < |sts| ==> |sts[j]| >= 1 && Served(orig, sts, cuts, mode, j)
    ensures done ==> SoleIsNearMinimal(orig, sts, cuts)
    ensures Solvable(orig, sts, fuel) ==> done
  {
    ghost var none := NoCuts(orig, |sts|);
    assert forall i :: 0 <= i < |sts| ==> sts[i] in sts;
    cuts, mode, done, d := seq(|sts|, i => []), Replace, true, Begin;
    var g := orig;
    var history: set<CutLists> := {};
    var changed := true;
    while changed
      invariant |cuts| == |sts| && CutsOk(orig, cuts) && g == Minus(orig, Union(cuts))
      invariant IsDriver(orig, sts, d) && cuts == d.State(|sts|)
      invariant if changed then mode == d.NextMode() && (d.Pass? ==> !Ended(sts, d)) else Ended(sts, d) && mode == d.mode
      invariant mode.Replace? && changed ==> history == d.Seen()
      invariant history <= AllCuts(Edges(orig), |sts|)
      invariant !changed ==> forall j :: 0 <= j < |sts| ==> |sts[j]| >= 1 && Served(orig, sts, cuts, mode, j)
      invariant mode.Augment? || !changed ==> SoleIsNearMinimal(orig, sts, cuts)
      decreases mode.Replace?,
                if mode.Replace? then AllCuts(Edges(orig), |sts|) - history else {},
                if mode.Augment? then Edges(orig) - Union(cuts) else {},
                changed
    {
      ghost var before, last := cuts, d;
      done, g, cuts, changed := RecomputeAll(orig, g, sts, cuts, mode, fuel);
      if !done {
        return;
      }
      CutsAmongAll(orig, cuts);
      UnionIsEdges(orig, cuts);
      UnionIsEdges(orig, before);
      var timeIsUp: bool := *;
      d := Pass(last, mode, cuts, timeIsUp);
      if changed {
        if cuts in history {
          mode := Augment;
        } else {
          history := history + {cuts};
          if timeIsUp {
            mode := Augment;
          }
        }
      }
    }
  }

  // ---------------------------------------------------------------------------------
  // The driver

  class MinCut {
    const g: IdxGraph
    var sts: seq<Waypoints>
    var cutEdges: seq<Edge>

    constructor (g: IdxGraph)
      ensures this.g == g && sts == [] && cutEdges == []
    {
      this.g := g;
      sts, cutEdges := [], [];
    }

    method AddSt(st: Waypoints)
      modifies this`sts
      ensures sts == old(sts) + [st]
    {
      sts := sts + [st];
    }

    /**
     * Simplifies the lists, computes a cut for each and records the edges of all cuts. Without them no
     * walk passes through a list that was added. `done` is false when some cut took more than `fuel`
     * augmentations, and then nothing is recorded.
     */
    method Run(fuel: nat) returns (done: bool, ghost lists: seq<Waypoints>, ghost exact: bool, ghost d: Driver)
      requires WellFormed(g) && ListsOk(g, sts)
      modifies this`cutEdges
      ensures old(cutEdges) <= cutEdges && (!done ==> cutEdges == old(cutEdges))
      ensures var cut := cutEdges[|old(cutEdges)|..];
              && ToSet(cut) <= Edges(g) && NoDuplicates(cut)
              && (done ==> forall st :: st in sts ==> Separates(g, ToSet(cut), st))
      ensures Simplified(g, sts, lists, exact) && Irreducible(Edges(g), lists)
      ensures done ==> ListsFor(lists) && IsDriver(g, lists, d) && Ended(lists, d) && |d.cuts| == |lists|
      ensures done ==> cutEdges == old(cutEdges) + Flat(d.cuts)
      ensures done && d.mode.Replace? ==> forall j :: 0 <= j < |lists| ==>
                && CutOfRun(Minus(g, Others(d.cuts, j)), lists[j], ToSet(d.cuts[j]))
                && (SingletonMiddles(lists[j]) && PairsFit(g) ==> NearMinimal(Minus(g, Others(d.cuts, j)), lists[j], ToSet(d.cuts[j])))
      ensures AllSeparated(Edges(g), sts) ==> lists == [] && cutEdges == old(cutEdges)
      ensures (OnlyPairs(sts) || (|sts| <= 1 && AllSingle(sts))) && PairsFit(g) && fuel > SumW(g, Edges(g)) ==> done
      ensures done && |sts| == 1 && ListOk(g, sts[0]) && SingletonMiddles(sts[0]) && Apart(sts[0]) && PairsFit(g) ==>
                NearMinimal(g, sts[0], ToSet(cutEdges[|old(cutEdges)|..]))
    {
      var simple;
      simple, exact := OptimizeSts(sts, g);
      lists := simple;
      EasyListsAreSolvable(g, sts, simple, exact, fuel);
      var cuts, mode;
      done, cuts, mode, d := ComputeCuts(g, simple, fuel);
      if !done {
        return;
      }
      var all := Concat(g, cuts);
      UnionIsEdges(g, cuts);
      forall st | st in simple
        ensures Separates(g, ToSet(all), st)
      {
        var j :| 0 <= j < |simple| && simple[j] == st;
        assert Served(g, simple, cuts, mode, j);
      }
      forall j | 0 <= j < |simple| && mode.Replace?
        ensures CutOfRun(Minus(g, Others(cuts, j)), simple[j], ToSet(cuts[j]))
        ensures SingletonMiddles(simple[j]) && PairsFit(g) ==> NearMinimal(Minus(g, Others(cuts, j)), simple[j], ToSet(cuts[j]))
      {
        assert Served(g, simple, cuts, mode, j);
      }
      var ok := CheckCut(ToSet(all), simple, g);
      assert ok;
      SeparatingSimplified(g, sts, simple, exact, ToSet(all));
      assert |sts| == 1 ==> sts[0] in sts;
      if |sts| == 1 && SingletonMiddles(sts[0]) && Apart(sts[0]) && PairsFit(g) {
        SoleListIsNearMinimal(g, sts, simple, exact, cuts);
      }
      cutEdges := cutEdges + all;
      assert cutEdges[|old(cutEdges)|..] == all;
    }
  }

  /**
   * A single list with no two nodes in a middle set, and no node in two sets from the second on, gets a cut of at most
   * k-1 times the least weight: for a pair of sets, of least weight.
   */
  lemma SoleListIsNearMinimal(g: IdxGraph, sts: seq<Waypoints>, simple: seq<Waypoints>, exact: bool, cuts: CutLists)
    requires Simplified(g, sts, simple, exact) && PairsFit(g)
    requires |sts| == 1 && ListOk(g, sts[0]) && SingletonMiddles(sts[0]) && Apart(sts[0])
    requires |cuts| == |simple| && SoleIsNearMinimal(g, simple, cuts)
    ensures NearMinimal(g, sts[0], Union(cuts))
  {
    assert sts[0] in sts;
    assert AllApart(sts) && AllSingle(sts) && AllShort(sts, |sts[0]|);
    if simple == [] {
      assert Union(cuts) == {};
    } else {
      SoleCut(g, cuts);
      assert simple[0] in simple;
      forall other | Separates(g, other, sts[0])
        ensures SumW(g, Union(cuts)) <= (|sts[0]| - 1) * SumW(g, other)
      {
        SeparatingSimplified(g, sts, simple, exact, other);
        assert SumW(g, ToSet(cuts[0])) <= (|simple[0]| - 1) * SumW(g, other);
        TimesGrows(|simple[0]| - 1, |sts[0]| - 1, SumW(g, other));
      }
    }
  }

  lemma TimesGrows(a: nat, b: nat, w: nat)
    requires a <= b
    ensures a * w <= b * w
  {
  }

  /** The staged search over the edges that are not cut, as a check of the result. */
  method CheckCutST(st: Waypoints, cut: set<Edge>, g: IdxGraph) returns (ok: bool)
    requires WellFormed(g) && ListOk(g, st)
    ensures ok <==> Separates(g, cut, st)
  {
    var rest := Minus(g, cut);
    MinusEdges(g, cut);
    var S := st[0];
    for i := 1 to |st|
      invariant S == Stage(Edges(rest), st, i - 1)
    {
      assert forall s :: s in S ==> s in st[i - 1];
      S := CullUnreachablesOf(rest, S, st[i]);
    }
    StagesDecide(Edges(rest), st);
    ok := S == {};
  }

  /** The check of all lists against all cuts. */
  method CheckCut(cut: set<Edge>, sts: seq<Waypoints>, g: IdxGraph) returns (ok: bool)
    requires WellFormed(g) && ListsOk(g, sts)
    ensures ok <==> forall st :: st in sts ==> Separates(g, cut, st)
  {
    ok := true;
    for i := 0 to |sts|
      invariant ok <==> forall j :: 0 <= j < i ==> Separates(g, cut, sts[j])
    {
      assert sts[i] in sts;
      var passed := CheckCutST(sts[i], cut, g);
      ok := ok && passed;
    }
  }

  /** The cuts of pairs, and of a single list with no two nodes in a middle set, are sure to end. */
  lemma EasyListsAreSolvable(g: IdxGraph, sts: seq<Waypoints>, simple: seq<Waypoints>, exact: bool, fuel: nat)
    requires Simplified(g, sts, simple, exact)
    ensures (OnlyPairs(sts) || (|sts| <= 1 && AllSingle(sts))) && PairsFit(g) && fuel > SumW(g, Edges(g)) ==>
              Solvable(g, simple, fuel)
  {
    if OnlyPairs(sts) {
      assert AllShort(simple, 2);
    }
  }

  /** All cuts, one after the other. */
  method Concat(ghost orig: IdxGraph, cuts: CutLists) returns (all: seq<Edge>)
    requires CutsOk(orig, cuts)
    ensures all == Flat(cuts) && ToSet(all) == Union(cuts) && NoDuplicates(all)
  {
    all := [];
    for i := 0 to |cuts|
      invariant all == Flat(cuts[..i]) && ToSet(all) == Union(cuts[..i]) && NoDuplicates(all)
    {
      AppendCut(orig, cuts, i, all);
      assert cuts[..i + 1][..i] == cuts[..i];
      all := all + cuts[i];
    }
    assert cuts[..|cuts|] == cuts;
  }

  lemma AppendCut(orig: IdxGraph, cuts: CutLists, i: nat, all: seq<Edge>)
    requires CutsOk(orig, cuts) && i < |cuts| && ToSet(all) == Union(cuts[..i]) && NoDuplicates(all)
    ensures ToSet(all + cuts[i]) == Union(cuts[..i + 1]) && NoDuplicates(all + cuts[i])
  {
    StrictIsDistinct(cuts[i]);
    forall a, b | 0 <= a < |all| && 0 <= b < |cuts[i]|
      ensures all[a] != cuts[i][b]
    {
      assert all[a] in ToSet(all);
      var j :| 0 <= j < i && all[a] in cuts[..i][j];
      assert all[a] in ToSet(cuts[j]) && cuts[i][b] in ToSet(cuts[i]);
    }
    forall e
      ensures e in ToSet(all + cuts[i]) <==> e in Union(cuts[..i + 1])
    {
      if e in all {
        assert e in ToSet(all);
        var j :| 0 <= j < i && e in cuts[..i][j];
        assert e in cuts[..i + 1][j];
      }
      if e in cuts[i] {
        assert e in cuts[..i + 1][i];
      }
      if e in Union(cuts[..i + 1]) {
        var j :| 0 <= j < i + 1 && e in cuts[..i + 1][j];
        if j < i {
          assert e in cuts[..i][j];
          assert e in ToSet(all);
        }
      }
    }
  }
}
