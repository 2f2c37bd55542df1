/**
 * The minimum cut between waypoint sets: the residual loop over the lifted graph, the edges that leave
 * what the first set still reaches, and their projection.
 */
module FordFulkerson {
  import opened Graphs
  import opened Waypoints
  import opened Search
  import opened ScopedGraphs
  import opened LevelGraphs
  import opened Lifting
  import opened Climbing
  import opened Weights
  import opened Residual
  import opened Cuts
  import opened SimpleWalks
  import opened Runs
  import opened MaxFlow
  import opened EdgeLists

  /** The smallest weight on the walk, or MAX_WEIGHT when no weight is smaller. */
  method PathFlow(resG: ScopedGraph, path: seq<nat>) returns (flow: u32)
    requires WellFormed(resG.Rows()) && |path| >= 2 && IsWalk(Edges(resG.Rows()), path)
    requires OnNodes(|resG.orig|, path)
    ensures flow > 0 && Carries(resG.Rows(), path, flow, 0)
    ensures flow == MAX_WEIGHT || exists i :: 0 <= i < |path| - 1 && flow == Weight(resG.Rows(), Hop(path, i))
  {
    flow := MAX_WEIGHT;
    var i := 0;
    while i < |path| - 1
      invariant 0 <= i <= |path| - 1 && flow > 0
      invariant forall m :: 0 <= m < i ==> flow <= Weight(resG.Rows(), Hop(path, m))
      invariant flow == MAX_WEIGHT || exists m :: 0 <= m < i && flow == Weight(resG.Rows(), Hop(path, m))
    {
      assert Hop(path, i) in Edges(resG.Rows());
      EdgesAreWeighted(resG.Rows(), Hop(path, i));
      var w := resG.GetWeight(path[i], path[i + 1]);
      assert w == Weight(resG.Rows(), Hop(path, i));
      if w < flow {
        flow := w;
      }
      i := i + 1;
    }
  }

  /** One push of `flow` along each edge of the walk. */
  method Augment(resG: ScopedGraph, path: seq<nat>, flow: u32)
    requires |path| >= 2 && OnNodes(|resG.orig|, path)
    modifies resG
    ensures resG.Rows() == Pushed(old(resG.Rows()), path, flow, |path| - 1)
  {
    var i := 0;
    while i < |path| - 1
      invariant 0 <= i <= |path| - 1
      invariant resG.Rows() == Pushed(old(resG.Rows()), path, flow, i)
    {
      resG.PutWeight(path[i], path[i + 1], Sub32(resG.GetWeight(path[i], path[i + 1]), flow));
      resG.PutWeight(path[i + 1], path[i], Add32(resG.GetWeight(path[i + 1], path[i]), flow));
      i := i + 1;
    }
  }

  /** The edges of the graph that leave the reached nodes. */
  method CollectLeaving(g: IdxGraph, reach: set<nat>) returns (results: seq<Edge>)
    ensures ToSet(results) == Leaving(Edges(g), reach)
  {
    results := [];
    for u := 0 to |g|
      invariant forall e :: e in results <==> e in Leaving(Edges(g), reach) && e.src < u
    {
      if u in reach {
        var row := g[u].Keys;
        while row != {}
          invariant row <= g[u].Keys
          invariant forall e :: e in results <==>
                      e in Leaving(Edges(g), reach) && (e.src < u || (e.src == u && e.dst !in row))
        {
          var v :| v in row;
          row := row - {v};
          if v !in reach {
            results := results + [Edge(u, v)];
          }
        }
      }
    }
  }

  /** The edges in terms of the nodes of the original graph, sorted, each once. */
  method Project(n: nat, levels: nat, g: IdxGraph, edges: seq<Edge>) returns (results: seq<Edge>)
    requires n == |g| > 0
    ensures ToSet(results) == set e | e in edges :: BaseEdge(n, e)
    ensures StrictlyAscending(results)
  {
    var dup := DupGraph(g, levels);
    results := [];
    for i := 0 to |edges|
      invariant forall f :: f in results <==> exists j :: 0 <= j < i && BaseEdge(n, edges[j]) == f
    {
      var e := Edge(dup.GetFirstLevelNode(edges[i].src), dup.GetFirstLevelNode(edges[i].dst));
      assert e == BaseEdge(n, edges[i]);
      results := results + [e];
    }
    forall f
      ensures f in results <==> f in set e | e in edges :: BaseEdge(n, e)
    {
      if f in results {
        var j :| 0 <= j < |edges| && BaseEdge(n, edges[j]) == f;
        assert edges[j] in edges;
      }
      if e :| e in edges && BaseEdge(n, e) == f {
        var j :| 0 <= j < |edges| && edges[j] == e;
        assert BaseEdge(n, edges[j]) == f;
      }
    }
    SortAscending(results);
    UniqueStrict(Sort(results));
    results := Unique(Sort(results));
  }

  // ---------------------------------------------------------------------------------
  // The residual loop

  /** Pushes the smallest weight of the walk along it. */
  method AugmentBy(ghost L: Waypoints, resG: ScopedGraph, path: seq<nat>, ghost pos: seq<nat>) returns (flow: u32)
    requires |L| >= 1 && WellFormed(resG.Rows()) && |path| >= 2 && StagedWalk(Edges(resG.Rows()), L, 0, path, pos)
    modifies resG
    ensures AugmentsTo(old(resG.Rows()), L, Augmentation(path, pos, flow), resG.Rows())
  {
    PathOnNodes(resG.Rows(), path);
    flow := PathFlow(resG, path);
    Augment(resG, path, flow);
  }

  /** Augments until the search fails, at most `fuel` times. */
  method Saturate(ghost g: IdxGraph, ghost W: Waypoints, lifted: IdxGraph, waypoints: Waypoints, fuel: nat)
    returns (done: bool, resG: ScopedGraph, ghost run: Run)
    requires |g| > 0 && |W| >= 2 && WellFormed(g) && WaypointsOf(g, W)
    requires IsLifting(g, W, lifted) && waypoints == LiftWaypoints(|g|, W)
    ensures resG.orig == lifted && IsRun(lifted, waypoints, run) && resG.Rows() == run.Left(lifted)
    ensures if done then Separated(Edges(resG.Rows()), waypoints) else run.Length() == fuel
    ensures Separated(Edges(lifted), waypoints) ==> run.Start?
  {
    resG := new ScopedGraph(lifted);
    LiftedWaypointsAreNodes(g, W, lifted);
    done, run := false, Start;
    var iter := 0;
    while iter < fuel
      invariant fresh(resG) && resG.orig == lifted
      invariant IsRun(lifted, waypoints, run) && resG.Rows() == run.Left(lifted)
      invariant 0 <= iter == run.Length() <= fuel
      invariant Separated(Edges(lifted), waypoints) ==> run.Start?
    {
      ghost var r := resG.Rows();
      assert IsResidual(lifted, r) by {
        RunKeeps(g, W, lifted, run);
      }
      var found, path, pos := FindStPathMulti(resG.Rows(), waypoints);
      if !found {
        done := true;
        return;
      }
      assert |path| >= 2 by {
        StepIsSimple(g, W, lifted, r, path, pos);
      }
      var flow := AugmentBy(waypoints, resG, path, pos);
      run := Then(run, Augmentation(path, pos, flow), resG.Rows());
      iter := iter + 1;
    }
  }

  /** Saturates, then collects the edges that leave what the first set still reaches. */
  method FordFulkersonMultiImpl(ghost g: IdxGraph, ghost W: Waypoints, lifted: IdxGraph, waypoints: Waypoints, fuel: nat)
    returns (done: bool, results: seq<Edge>, ghost reach: set<nat>, ghost run: Run)
    requires |g| > 0 && |W| >= 2 && WellFormed(g) && WaypointsOf(g, W)
    requires IsLifting(g, W, lifted) && waypoints == LiftWaypoints(|g|, W)
    ensures RunFor(g, W, run) && (!done ==> run.Length() == fuel)
    ensures done ==> ToSet(results) == Leaving(Edges(lifted), reach) && StuckRun(g, W, lifted, run, reach)
    ensures Separated(Edges(lifted), waypoints) ==> results == []
    ensures done ==> Separates(g, ProjectedCut(|g|, lifted, reach), W)
    ensures done && run.Simple() && PairsFit(g) ==> NearMinimal(g, W, ProjectedCut(|g|, lifted, reach))
    ensures done && |W| == 2 && PairsFit(g) ==> SumW(g, ProjectedCut(|g|, lifted, reach)) == run.Total()
  {
    var resG;
    done, resG, run := Saturate(g, W, lifted, waypoints, fuel);
    if !done {
      return false, [], {}, run;
    }
    LiftedWaypointsAreNodes(g, W, lifted);
    assert WellFormed(resG.Rows()) by {
      RunKeeps(g, W, lifted, run);
    }
    var reached := FindReachableMulti(resG.Rows(), waypoints[0]);
    reach := reached;
    StuckRunCuts(g, W, lifted, run, reach);
    if |W| == 2 && PairsFit(g) {
      MaxFlowIsMinCut(g, W, lifted, run, reach);
    }
    results := CollectLeaving(lifted, reached);
    assert results != [] ==> results[0] in ToSet(results);
    assert Separated(Edges(lifted), waypoints) ==> Leaving(Edges(lifted), reach) == {};
  }

  /**
   * A set of edges, sorted and without duplicates, that separates the waypoints. `done` is false when
   * `fuel` augmentations were not enough.
   */
  method FordFulkersonMulti(g: IdxGraph, W: Waypoints, fuel: nat)
    returns (done: bool, results: seq<Edge>, ghost run: Run)
    requires |W| >= 2 && WellFormed(g) && WaypointsOf(g, W)
    ensures RunFor(g, W, run) && (!done ==> run.Length() == fuel)
    ensures done ==> FlowCut(g, W, ToSet(results), run)
    ensures done ==> ToSet(results) <= Edges(g) && Separates(g, ToSet(results), W)
    ensures forall i, j :: 0 <= i < j < |results| ==>
              results[i].src < results[j].src || (results[i].src == results[j].src && results[i].dst < results[j].dst)
    ensures Separated(Edges(g), W) ==> results == []
    ensures done && run.Simple() && PairsFit(g) ==> NearMinimal(g, W, ToSet(results))
    ensures done && |W| == 2 && PairsFit(g) ==> SumW(g, ToSet(results)) == run.Total()
    ensures done && |W| == 2 && PairsFit(g) ==>
              forall other :: Separates(g, other, W) ==> SumW(g, ToSet(results)) <= SumW(g, other)
    ensures SingletonMiddles(W) ==> run.Simple()
    ensures run.Simple() && PairsFit(g) && fuel > SumW(g, Edges(g)) ==> done
  {
    if |g| == 0 {
      NothingToSeparate(g, W);
      return true, [], Start;
    }
    var modG, waypoints := BuildLifting(g, W);
    if Separated(Edges(g), W) {
      SeparatedIsLifted(g, W, modG.Rows());
    }
    ghost var reach;
    var edges;
    done, edges, reach, run := FordFulkersonMultiImpl(g, W, modG.Rows(), waypoints, fuel);
    assert (SingletonMiddles(W) ==> run.Simple()) && (run.Simple() && PairsFit(g) ==> run.Length() <= SumW(g, Edges(g))) by {
      RunsEnd(g, W, run);
    }
    if !done {
      return false, [], run;
    }
    results := ProjectCut(g, W, modG.Rows(), edges, reach, run);
  }

  /** The cut of a run that has ended, in terms of the graph. */
  method ProjectCut(g: IdxGraph, W: Waypoints, ghost lifted: IdxGraph, edges: seq<Edge>, ghost reach: set<nat>, ghost run: Run)
    returns (results: seq<Edge>)
    requires |g| > 0 && |W| >= 2 && WellFormed(g) && WaypointsOf(g, W) && StuckRun(g, W, lifted, run, reach)
    requires ToSet(edges) == Leaving(Edges(lifted), reach)
    ensures StrictlyAscending(results) && (edges == [] ==> results == [])
    ensures FlowCut(g, W, ToSet(results), run) && ToSet(results) <= Edges(g) && Separates(g, ToSet(results), W)
    ensures run.Simple() && PairsFit(g) ==> NearMinimal(g, W, ToSet(results))
    ensures |W| == 2 && PairsFit(g) ==> SumW(g, ToSet(results)) == run.Total()
    ensures |W| == 2 && PairsFit(g) ==>
              forall other :: Separates(g, other, W) ==> SumW(g, ToSet(results)) <= SumW(g, other)
  {
    results := Project(|g|, |W|, g, edges);
    assert results != [] ==> results[0] in ToSet(results);
    assert ToSet(results) == ProjectedCut(|g|, lifted, reach);
    ResultsCut(g, W, lifted, run, reach, ToSet(results));
  }

  /** What the projected edges that leave the final reach are worth. */
  lemma ResultsCut(g: IdxGraph, W: Waypoints, lifted: IdxGraph, run: Run, reach: set<nat>, cut: set<Edge>)
    requires |g| > 0 && |W| >= 2 && WellFormed(g) && WaypointsOf(g, W) && StuckRun(g, W, lifted, run, reach)
    requires cut == ProjectedCut(|g|, lifted, reach)
    ensures FlowCut(g, W, cut, run) && cut <= Edges(g) && Separates(g, cut, W)
    ensures run.Simple() && PairsFit(g) ==> NearMinimal(g, W, cut)
    ensures |W| == 2 && PairsFit(g) ==> SumW(g, cut) == run.Total()
    ensures |W| == 2 && PairsFit(g) ==> forall other :: Separates(g, other, W) ==> SumW(g, cut) <= SumW(g, other)
  {
    FlowCutSeparates(g, W, cut, run);
    if |W| == 2 && PairsFit(g) {
      assert SingletonMiddles(W);
      MaxFlowIsMinCut(g, W, lifted, run, reach);
      assert (|W| - 1) == 1;
    }
  }

  /** Waypoints that are separated in the graph are separated in the lifted graph. */
  lemma SeparatedIsLifted(g: IdxGraph, W: Waypoints, lifted: IdxGraph)
    requires |g| > 0 && WaypointsOf(g, W) && IsLifting(g, W, lifted) && Separated(Edges(g), W)
    ensures Separated(Edges(lifted), LiftWaypoints(|g|, W))
  {
    forall e | e in Edges(lifted)
      ensures BaseEdge(|g|, e) in Edges(g)
    {
      LiftingClimbs(g, W, lifted, e);
    }
    forall p | IsWalk(Edges(lifted), p)
      ensures !Admits(p, LiftWaypoints(|g|, W))
    {
      if pos :| VisitsInOrder(p, LiftWaypoints(|g|, W), pos) {
        BaseWalkVisits(|g|, W, Edges(lifted), Edges(g), p, pos);
      }
    }
  }
}
