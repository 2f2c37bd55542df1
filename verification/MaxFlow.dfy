/** Two waypoint sets: the cut weighs exactly what flowed. */
module MaxFlow {
  import opened Graphs
  import opened Waypoints
  import opened LevelGraphs
  import opened Lifting
  import opened Climbing
  import opened Weights
  import opened Residual
  import opened Cuts
  import opened Runs

  /** When the search has failed, the first set reaches nothing in the last level: with two sets it stays in level 0. */
  lemma ReachStaysBelow(g: IdxGraph, W: Waypoints, lifted: IdxGraph, r: IdxGraph, x: nat)
    requires |g| > 0 && |W| >= 2 && WaypointsOf(g, W) && IsLifting(g, W, lifted) && IsResidual(lifted, r)
    requires Separated(Edges(r), LiftWaypoints(|g|, W))
    requires x in LiftSet(|g|, W[0], 0) || PosReach(Edges(r), LiftSet(|g|, W[0], 0), x)
    ensures Level(|g|, x) < |W| - 1
  {
    if x in LiftSet(|g|, W[0], 0) {
      LiftSetDecodes(|g|, W[0], 0, x);
    } else if Level(|g|, x) >= |W| - 1 {
      ResidualClimbs(g, W, lifted, r);
      TopLevelIsStaged(|g|, W, Edges(r), x);
    }
  }

  /** With two sets, the weight of the cut is what the run made flow: no weight is lost by the projection. */
  lemma MaxFlowIsMinCut(g: IdxGraph, W: Waypoints, lifted: IdxGraph, run: Run, reach: set<nat>)
    requires |g| > 0 && |W| == 2 && WellFormed(g) && WaypointsOf(g, W) && PairsFit(g) && StuckRun(g, W, lifted, run, reach)
    ensures SumW(g, ProjectedCut(|g|, lifted, reach)) == run.Total()
  {
    var n, cut, E, r := |g|, ProjectedCut(|g|, lifted, reach), Leaving(Edges(lifted), reach), run.Left(lifted);
    RunKeeps(g, W, lifted, run);
    LiftedPairsFit(g, W, lifted);
    SearchFailed(g, W, lifted, r, reach);
    forall e | e in E
      ensures Level(n, e.src) == 0 && BaseEdge(n, e) in cut && Weight(lifted, e) == Weight(g, BaseEdge(n, e))
    {
      ReachStaysBelow(g, W, lifted, r, e.src);
      LiftingClimbs(g, W, lifted, e);
    }
    OneLevelWeighs(g, W, lifted, 0, E, cut);
    ProjectionLosesWeight(g, lifted, E, cut);
    CutWeightOfEdges(lifted, reach);
    CutWeightOfEdges(r, reach);
    assert CutWeight(r, reach) + run.Total() == CutWeight(lifted, reach);
  }
}
