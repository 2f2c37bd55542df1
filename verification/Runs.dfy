/**
 * Runs of the residual loop: every augmentation pushes the smallest weight of a walk that the staged search
 * may join. What each augmentation keeps, and what that makes of the cut that is left at the end.
 */
module Runs {
  import opened Graphs
  import opened Waypoints
  import opened Search
  import opened LevelGraphs
  import opened Lifting
  import opened Climbing
  import opened Weights
  import opened Residual
  import opened Cuts
  import opened SimpleWalks

  const MAX_WEIGHT: u32 := TWO_TO_THE_32 - 1

  // ---------------------------------------------------------------------------------
  // One augmentation

  /** What every augmentation keeps. `clean` says that no augmenting walk used an edge twice so far. */
  ghost predicate LoopState(g: IdxGraph, W: Waypoints, lifted: IdxGraph, r: IdxGraph, total: nat, clean: bool)
    requires |g| > 0 && |W| >= 2
  {
    && IsResidual(lifted, r)
    && (clean && PairsFit(lifted) ==>
          && Balanced(lifted, r)
          && Flowed(lifted, r, LiftSet(|g|, W[0], 0), LiftSet(|g|, W[|W| - 1], |W| - 1), total))
  }

  lemma PathOnNodes(r: IdxGraph, p: seq<nat>)
    requires WellFormed(r) && |p| >= 2 && IsWalk(Edges(r), p)
    ensures OnNodes(|r|, p)
  {
    forall i | 0 <= i < |p|
      ensures p[i] < |r|
    {
      if i == 0 {
        assert Hop(p, 0) in Edges(r);
      } else {
        assert Hop(p, i - 1) in Edges(r);
      }
    }
  }

  lemma AugmentKeeps(g: IdxGraph, W: Waypoints, lifted: IdxGraph, r: IdxGraph, total: nat, clean: bool,
                     p: seq<nat>, flow: u32)
    requires |g| > 0 && |W| >= 2 && LoopState(g, W, lifted, r, total, clean)
    requires |p| >= 2 && IsWalk(Edges(r), p) && OnNodes(|r|, p) && Carries(r, p, flow, 0)
    requires p[0] in LiftSet(|g|, W[0], 0) && p[|p| - 1] in LiftSet(|g|, W[|W| - 1], |W| - 1)
    ensures LoopState(g, W, lifted, Pushed(r, p, flow, |p| - 1), total + flow, clean && EdgeSimple(p))
  {
    PushedKeepsResidual(lifted, r, p, flow, |p| - 1);
    if clean && EdgeSimple(p) && PairsFit(lifted) {
      AugmentFlowed(lifted, r, LiftSet(|g|, W[0], 0), LiftSet(|g|, W[|W| - 1], |W| - 1), total, p, flow);
    }
  }

  /** The flow never exceeds what leaves the sources. */
  lemma FlowIsBounded(g: IdxGraph, W: Waypoints, lifted: IdxGraph, r: IdxGraph, total: nat)
    requires |g| > 0 && |W| >= 2 && WaypointsOf(g, W) && IsLifting(g, W, lifted)
    requires LoopState(g, W, lifted, r, total, true) && PairsFit(lifted)
    ensures total <= SumW(g, Edges(g))
  {
    var n, k := |g|, |W| - 1;
    var sources, sinks := LiftSet(n, W[0], 0), LiftSet(n, W[k], k);
    LiftedEndsAreDisjoint(g, W);
    SourceCutWeighs(g, W, lifted);
    assert CutWeight(r, sources) + total == CutWeight(lifted, sources);
  }

  lemma LiftedEndsAreDisjoint(g: IdxGraph, W: Waypoints)
    requires |g| > 0 && |W| >= 2 && WaypointsOf(g, W)
    ensures LiftSet(|g|, W[0], 0) !! LiftSet(|g|, W[|W| - 1], |W| - 1)
  {
    forall x | x in LiftSet(|g|, W[0], 0)
      ensures x !in LiftSet(|g|, W[|W| - 1], |W| - 1)
    {
      LiftSetDecodes(|g|, W[0], 0, x);
      LiftSetDecodes(|g|, W[|W| - 1], |W| - 1, x);
    }
  }

  lemma LiftedPairsFit(g: IdxGraph, W: Waypoints, lifted: IdxGraph)
    requires |g| > 0 && PairsFit(g) && IsLifting(g, W, lifted)
    ensures PairsFit(lifted)
  {
    forall e: Edge {:trigger Rev(e)} | e != Rev(e)
      ensures Weight(lifted, e) + Weight(lifted, Rev(e)) < TWO_TO_THE_32
    {
      var b := BaseEdge(|g|, e);
      assert BaseEdge(|g|, Rev(e)) == Rev(b);
      if Weight(lifted, e) > 0 && Weight(lifted, Rev(e)) > 0 {
        assert LiftedWeight(g, W, e) > 0 && LiftedWeight(g, W, Rev(e)) > 0;
        LiftEncodes(|g|, e.src);
        LiftEncodes(|g|, e.dst);
        assert b != Rev(b);
      }
    }
  }

  /** When the search fails, what the sources reach is a side of a saturated cut. */
  lemma SearchFailed(g: IdxGraph, W: Waypoints, lifted: IdxGraph, r: IdxGraph, reach: set<nat>)
    requires |g| > 0 && |W| >= 2 && WaypointsOf(g, W) && IsLifting(g, W, lifted) && IsResidual(lifted, r)
    requires Separated(Edges(r), LiftWaypoints(|g|, W))
    requires var sources := LiftSet(|g|, W[0], 0);
             forall v :: v in reach <==> v in sources || PosReach(Edges(r), sources, v)
    ensures LiftSet(|g|, W[0], 0) <= reach && reach !! LiftSet(|g|, W[|W| - 1], |W| - 1)
    ensures Leaving(Edges(r), reach) == {}
  {
    var sources := LiftSet(|g|, W[0], 0);
    ResidualClimbs(g, W, lifted, r);
    StagedIsPlain(|g|, W, Edges(r));
    LiftedEndsAreDisjoint(g, W);
    forall e | e in Edges(r) && e.src in reach
      ensures e.dst in reach
    {
      PosReachStep(Edges(r), sources, e.src, e.dst);
    }
  }

  /** No separating set of edges weighs less than 1/(k-1) of the cut. */
  ghost predicate NearMinimal(g: IdxGraph, W: Waypoints, cut: set<Edge>)
    requires |W| >= 1
  {
    forall other :: Separates(g, other, W) ==> SumW(g, cut) <= (|W| - 1) * SumW(g, other)
  }

  /** The cut found weighs at most k-1 times as much as any separating set of edges. */
  lemma CutIsNearMinimal(g: IdxGraph, W: Waypoints, lifted: IdxGraph, r: IdxGraph, total: nat, reach: set<nat>, cut: set<Edge>)
    requires |g| > 0 && |W| >= 2 && WellFormed(g) && WaypointsOf(g, W) && IsLifting(g, W, lifted)
    requires LoopState(g, W, lifted, r, total, true) && PairsFit(lifted)
    requires LiftSet(|g|, W[0], 0) <= reach && reach !! LiftSet(|g|, W[|W| - 1], |W| - 1)
    requires Leaving(Edges(r), reach) == {}
    requires cut == ProjectedCut(|g|, lifted, reach)
    ensures NearMinimal(g, W, cut)
  {
    var n, k := |g|, |W| - 1;
    var E := Leaving(Edges(lifted), reach);
    forall e | e in E
      ensures Weight(lifted, e) == Weight(g, BaseEdge(n, e))
    {
      LiftingClimbs(g, W, lifted, e);
    }
    ProjectionLosesWeight(g, lifted, E, cut);
    CutWeightOfEdges(lifted, reach);
    forall other | Separates(g, other, W)
      ensures SumW(g, cut) <= k * SumW(g, other)
    {
      var side := LiftedCutWeighs(g, W, lifted, other);
      SaturatedCutIsMinimal(lifted, r, LiftSet(n, W[0], 0), LiftSet(n, W[k], k), total, reach, side);
    }
  }

  /** The walk that the search returns starts and ends in the end sets, and is simple between singletons. */
  lemma StepIsSimple(g: IdxGraph, W: Waypoints, lifted: IdxGraph, r: IdxGraph, path: seq<nat>, pos: seq<nat>)
    requires |g| > 0 && |W| >= 2 && WaypointsOf(g, W) && IsLifting(g, W, lifted) && IsResidual(lifted, r)
    requires StagedWalk(Edges(r), LiftWaypoints(|g|, W), 0, path, pos)
    ensures |path| >= 2 && path[0] in LiftSet(|g|, W[0], 0) && path[|path| - 1] in LiftSet(|g|, W[|W| - 1], |W| - 1)
    ensures SingletonMiddles(W) ==> EdgeSimple(path)
  {
    var L := LiftWaypoints(|g|, W);
    StagedWalkVisits(Edges(r), L, path, pos);
    assert path[pos[0]] in L[0] && path[pos[|W| - 1]] in L[|W| - 1];
    assert pos[0] < pos[|W| - 1];
    if SingletonMiddles(W) {
      ResidualClimbs(g, W, lifted, r);
      SingletonMiddlesAreSimple(|g|, W, Edges(r), path, pos);
    }
  }

  // ---------------------------------------------------------------------------------
  // Whole runs

  /** A walk with the positions of its legs, and the flow pushed along it. */
  datatype Augmentation = Augmentation(walk: seq<nat>, pos: seq<nat>, flow: u32)

  /** The search may return the walk, and `flow` is the smallest weight on it. */
  ghost predicate Augments(r: IdxGraph, L: Waypoints, a: Augmentation)
    requires |L| >= 1
  {
    && |a.walk| >= 2 && OnNodes(|r|, a.walk)
    && StagedWalk(Edges(r), L, 0, a.walk, a.pos)
    && a.flow > 0 && Carries(r, a.walk, a.flow, 0)
    && (a.flow == MAX_WEIGHT || exists i :: 0 <= i < |a.walk| - 1 && a.flow == Weight(r, Hop(a.walk, i)))
  }

  ghost predicate AugmentsTo(r: IdxGraph, L: Waypoints, a: Augmentation, r': IdxGraph)
    requires |L| >= 1
  {
    Augments(r, L, a) && r' == Pushed(r, a.walk, a.flow, |a.walk| - 1)
  }

  /** The augmentations so far, each with the residual graph that it leaves. */
  datatype Run = Start | Then(before: Run, step: Augmentation, left: IdxGraph) {
    ghost function Left(g: IdxGraph): IdxGraph {
      if Start? then g else left
    }

    ghost function Length(): nat {
      if Start? then 0 else before.Length() + 1
    }

    ghost function Total(): nat {
      if Start? then 0 else before.Total() + step.flow
    }

    /** No augmenting walk uses an edge twice. */
    ghost predicate Simple() {
      Then? ==> before.Simple() && EdgeSimple(step.walk)
    }
  }

  /** A run of the residual loop that starts in `g`. */
  ghost predicate IsRun(g: IdxGraph, L: Waypoints, run: Run)
    requires |L| >= 1
  {
    run.Then? ==> IsRun(g, L, run.before) && AugmentsTo(run.before.Left(g), L, run.step, run.left)
  }

  /** A run for the waypoints W of the graph: it starts in the lifted graph. */
  ghost predicate RunFor(g: IdxGraph, W: Waypoints, run: Run)
    requires |W| >= 1
  {
    if |g| == 0 then run.Start?
    else exists lifted :: IsLifting(g, W, lifted) && IsRun(lifted, LiftWaypoints(|g|, W), run)
  }

  lemma StepKeeps(g: IdxGraph, W: Waypoints, lifted: IdxGraph, r: IdxGraph, total: nat, simple: bool,
                  a: Augmentation, r': IdxGraph)
    requires |g| > 0 && |W| >= 2 && WaypointsOf(g, W) && IsLifting(g, W, lifted)
    requires LoopState(g, W, lifted, r, total, simple) && AugmentsTo(r, LiftWaypoints(|g|, W), a, r')
    ensures LoopState(g, W, lifted, r', total + a.flow, simple && EdgeSimple(a.walk))
    ensures SingletonMiddles(W) ==> EdgeSimple(a.walk)
  {
    var p := a.walk;
    assert p[0] in LiftSet(|g|, W[0], 0) && p[|p| - 1] in LiftSet(|g|, W[|W| - 1], |W| - 1)
      && (SingletonMiddles(W) ==> EdgeSimple(p)) by {
      StepIsSimple(g, W, lifted, r, p, a.pos);
    }
    AugmentKeeps(g, W, lifted, r, total, simple, p, a.flow);
  }

  /** Every run keeps the residual graph one, whatever wraps around; the rest as long as its walks are simple. */
  lemma {:induction false} RunKeeps(g: IdxGraph, W: Waypoints, lifted: IdxGraph, run: Run)
    requires |g| > 0 && |W| >= 2 && WaypointsOf(g, W) && IsLifting(g, W, lifted)
    requires IsRun(lifted, LiftWaypoints(|g|, W), run)
    ensures LoopState(g, W, lifted, run.Left(lifted), run.Total(), run.Simple())
    ensures SingletonMiddles(W) ==> run.Simple()
    ensures run.Length() <= run.Total()
  {
    if run.Then? {
      RunKeeps(g, W, lifted, run.before);
      StepKeeps(g, W, lifted, run.before.Left(lifted), run.before.Total(), run.before.Simple(), run.step, run.left);
    }
  }

  /** Simple runs end: they have no more augmentations than the edges weigh. Between singletons every run is simple. */
  lemma RunsEnd(g: IdxGraph, W: Waypoints, run: Run)
    requires |W| >= 2 && WellFormed(g) && WaypointsOf(g, W) && RunFor(g, W, run)
    ensures run.Simple() && PairsFit(g) ==> run.Length() <= SumW(g, Edges(g))
    ensures SingletonMiddles(W) ==> run.Simple()
  {
    if |g| > 0 {
      var lifted :| IsLifting(g, W, lifted) && IsRun(lifted, LiftWaypoints(|g|, W), run);
      RunKeeps(g, W, lifted, run);
      if run.Simple() && PairsFit(g) {
        LiftedPairsFit(g, W, lifted);
        FlowIsBounded(g, W, lifted, run.Left(lifted), run.Total());
      }
    }
  }

  /** A run on the lifted graph that the search has ended, and what the first set still reaches then. */
  ghost predicate StuckRun(g: IdxGraph, W: Waypoints, lifted: IdxGraph, run: Run, reach: set<nat>)
    requires |g| > 0 && |W| >= 1
  {
    && IsLifting(g, W, lifted)
    && IsRun(lifted, LiftWaypoints(|g|, W), run) && Separated(Edges(run.Left(lifted)), LiftWaypoints(|g|, W))
    && (var sources := LiftSet(|g|, W[0], 0);
        forall v :: v in reach <==> v in sources || PosReach(Edges(run.Left(lifted)), sources, v))
  }

  /** The cut that such a run leaves: the edges out of what the first set still reaches, in terms of the graph. */
  ghost predicate FlowCut(g: IdxGraph, W: Waypoints, cut: set<Edge>, run: Run)
    requires |W| >= 1
  {
    if |g| == 0 then run.Start? && cut == {}
    else exists lifted, reach :: StuckRun(g, W, lifted, run, reach) && cut == ProjectedCut(|g|, lifted, reach)
  }

  /** Whatever the run, its cut separates; after a simple run it weighs at most k-1 times any separating set. */
  lemma FlowCutSeparates(g: IdxGraph, W: Waypoints, cut: set<Edge>, run: Run)
    requires |W| >= 2 && WellFormed(g) && WaypointsOf(g, W) && FlowCut(g, W, cut, run)
    ensures cut <= Edges(g) && Separates(g, cut, W)
    ensures run.Simple() && PairsFit(g) ==> NearMinimal(g, W, cut)
    ensures SingletonMiddles(W) ==> run.Simple()
  {
    if |g| == 0 {
      NothingToSeparate(g, W);
    } else {
      var lifted, reach :| StuckRun(g, W, lifted, run, reach) && cut == ProjectedCut(|g|, lifted, reach);
      StuckRunCuts(g, W, lifted, run, reach);
      RunsEnd(g, W, run);
      forall e | e in Leaving(Edges(lifted), reach)
        ensures BaseEdge(|g|, e) in Edges(g)
      {
        LiftingClimbs(g, W, lifted, e);
      }
    }
  }

  lemma NothingToSeparate(g: IdxGraph, W: Waypoints)
    requires |g| == 0 && |W| >= 1 && WaypointsOf(g, W)
    ensures Separates(g, {}, W) && NearMinimal(g, W, {})
  {
    forall p | IsWalk(Edges(g) - {}, p)
      ensures !Admits(p, W)
    {
      assert W[0] == {};
      EmptySetAdmitsNothing(W, 0, p);
    }
  }

  /**
   * However a run went, once the search fails the projected cut around what the first set still reaches separates
   * the waypoints. If the run was simple, the cut weighs at most k-1 times as much as any separating set.
   */
  lemma StuckRunCuts(g: IdxGraph, W: Waypoints, lifted: IdxGraph, run: Run, reach: set<nat>)
    requires |g| > 0 && |W| >= 2 && WellFormed(g) && WaypointsOf(g, W) && StuckRun(g, W, lifted, run, reach)
    ensures Leaving(Edges(run.Left(lifted)), reach) == {}
    ensures Separates(g, ProjectedCut(|g|, lifted, reach), W)
    ensures run.Simple() && PairsFit(g) ==> NearMinimal(g, W, ProjectedCut(|g|, lifted, reach))
  {
    var cut := ProjectedCut(|g|, lifted, reach);
    RunKeeps(g, W, lifted, run);
    SearchFailed(g, W, lifted, run.Left(lifted), reach);
    ProjectedCutSeparates(g, W, lifted, reach, cut);
    if run.Simple() && PairsFit(g) {
      LiftedPairsFit(g, W, lifted);
      CutIsNearMinimal(g, W, lifted, run.Left(lifted), run.Total(), reach, cut);
    }
  }
}
