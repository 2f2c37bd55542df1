/**
 * Why the weight of the cut needs walks that use no edge twice. With two nodes in a middle set the very
 * first augmenting walk can run through a loop and use an edge in both of its legs. The code then takes
 * the flow off that edge twice, the 32-bit residual weight wraps around, and a bottleneck turns into the
 * widest edge of the graph. The cut found still separates, but weighs more than k-1 times the least one.
 * So it is for any list of disjoint sets with two nodes in a middle one.
 */
module DoubleUse {
  import opened Graphs
  import opened Waypoints
  import opened Search
  import opened LevelGraphs
  import opened Lifting
  import opened Climbing
  import opened Weights
  import opened Residual
  import opened LoopRuns
  import opened Cuts
  import opened SimpleWalks
  import opened Runs

  // ---------------------------------------------------------------------------------
  // A walk with a loop through a middle set

  /**
   * The walk p visits W[0], ..., W[j-1] in one node each, comes to a first node b of W[j] and on over x2, x5, x3 to a
   * second one, from there over x4, x2, x5 into W[j+1] and on to the last set:
   *   i <  j      j    j+1  j+2  j+3  j+4  j+5  j+6  j+7   j+8 <= i
   *   W[i]        b    x2   x5   x3   b'   x4   x2   x5    W[i-7]
   * The positions at which it is in the same node have the same canonical one.
   */
  function Canonical(j: nat, i: nat): nat {
    if i == j + 6 then j + 1 else if i == j + 7 then j + 2 else i
  }

  /** The level of the lifted walk at position i. */
  function LevelOf(j: nat, i: nat): nat {
    if i <= j then i else if i <= j + 7 then j else i - 7
  }

  /** Positions at nodes of no set. */
  predicate Between(j: nat, i: nat) {
    j < i <= j + 7 && i != j + 4
  }

  ghost predicate IsLoop(W: Waypoints, j: nat, p: seq<nat>, n: nat) {
    && 0 < j < |W| - 1 && |W| < TWO_TO_THE_32 && |p| == |W| + 7
    && (forall i :: 0 <= i < |p| ==> p[i] < n)
    && (forall i, i' {:trigger Canonical(j, i), Canonical(j, i')} :: 0 <= i < |p| && 0 <= i' < |p| && p[i] == p[i'] ==> Canonical(j, i) == Canonical(j, i'))
    && p[j + 6] == p[j + 1] && p[j + 7] == p[j + 2]
    && (forall i, l {:trigger p[i] in W[l]} :: 0 <= i < |p| && 0 <= l < |W| ==> (p[i] in W[l] <==> l == LevelOf(j, i) && !Between(j, i)))
    && (forall l, v {:trigger v in W[l]} :: 0 <= l < |W| && v in W[l] ==> v < n)
  }

  function Hops(p: seq<nat>): set<Edge> {
    set i | 0 <= i < |p| - 1 :: Hop(p, i)
  }

  /** The edges of the walk. Each weighs k, but the one from x2 to x5 only 1. */
  function LoopWeight(W: Waypoints, j: nat, p: seq<nat>, e: Edge): u32
    requires |W| < TWO_TO_THE_32 && j + 2 < |p|
  {
    if e !in Hops(p) then 0 else if e == Hop(p, j + 1) then 1 else |W|
  }

  function LoopGraph(W: Waypoints, j: nat, p: seq<nat>, n: nat): (g: IdxGraph)
    requires |W| < TWO_TO_THE_32 && j + 2 < |p|
    ensures |g| == n
  {
    seq(n, u requires 0 <= u < n => map v | 0 <= v < n && LoopWeight(W, j, p, Edge(u, v)) > 0 :: LoopWeight(W, j, p, Edge(u, v)))
  }

  lemma LoopGraphWeighs(W: Waypoints, j: nat, p: seq<nat>, n: nat)
    requires IsLoop(W, j, p, n)
    ensures var g := LoopGraph(W, j, p, n);
            && WellFormed(g) && WaypointsOf(g, W) && Edges(g) == Hops(p)
            && (forall e :: Weight(g, e) == LoopWeight(W, j, p, e))
  {
    var g := LoopGraph(W, j, p, n);
    forall e
      ensures Weight(g, e) == LoopWeight(W, j, p, e)
    {
      if e in Hops(p) {
        var i :| 0 <= i < |p| - 1 && e == Hop(p, i);
      }
    }
    forall e
      ensures e in Edges(g) <==> e in Hops(p)
    {
      EdgesAreWeighted(g, e);
    }
  }

  /** Steps of the walk: only the one from x2 to x5 is there twice, and none is there in both directions. */
  lemma HopsOnce(W: Waypoints, j: nat, p: seq<nat>, n: nat, i: nat, i': nat)
    requires IsLoop(W, j, p, n) && i < |p| - 1 && i' < |p| - 1
    ensures Hop(p, i) == Hop(p, i') <==> i == i' || (i == j + 1 && i' == j + 6) || (i == j + 6 && i' == j + 1)
    ensures Hop(p, i) != Rev(Hop(p, i'))
  {
    assert p[i] == p[i'] ==> Canonical(j, i) == Canonical(j, i');
    assert p[i] == p[i' + 1] ==> Canonical(j, i) == Canonical(j, i' + 1);
    assert p[i + 1] == p[i'] ==> Canonical(j, i + 1) == Canonical(j, i');
    assert p[i + 1] == p[i' + 1] ==> Canonical(j, i + 1) == Canonical(j, i' + 1);
  }

  lemma LoopPairsFit(W: Waypoints, j: nat, p: seq<nat>, n: nat)
    requires IsLoop(W, j, p, n)
    ensures PairsFit(LoopGraph(W, j, p, n))
  {
    LoopGraphWeighs(W, j, p, n);
    forall e | e in Hops(p)
      ensures Rev(e) !in Hops(p)
    {
      var i :| 0 <= i < |p| - 1 && e == Hop(p, i);
      if Rev(e) in Hops(p) {
        var i' :| 0 <= i' < |p| - 1 && Rev(e) == Hop(p, i');
        HopsOnce(W, j, p, n, i, i');
      }
    }
  }

  // ---------------------------------------------------------------------------------
  // The walk in the lifted graph

  function LiftedWalk(j: nat, p: seq<nat>, n: nat): (q: seq<nat>)
    ensures |q| == |p|
  {
    seq(|p|, i requires 0 <= i < |p| => Lift(n, p[i], LevelOf(j, i)))
  }

  lemma LiftedAt(W: Waypoints, j: nat, p: seq<nat>, n: nat, i: nat)
    requires IsLoop(W, j, p, n) && i < |p|
    ensures var x := LiftedWalk(j, p, n)[i];
            && Level(n, x) == LevelOf(j, i) && Base(n, x) == p[i] && x < Lift(n, 0, |W|)
            && (forall l :: 0 <= l < |W| ==> (x in LiftSet(n, W[l], l) <==> l == LevelOf(j, i) && !Between(j, i)))
  {
    LiftDecodes(n, p[i], LevelOf(j, i));
    var x := LiftedWalk(j, p, n)[i];
    LevelBound(n, x, |W|);
    forall l | 0 <= l < |W|
      ensures x in LiftSet(n, W[l], l) <==> l == LevelOf(j, i) && !Between(j, i)
    {
      LiftSetDecodes(n, W[l], l, x);
    }
  }

  lemma LiftedWalkOnNodes(W: Waypoints, j: nat, p: seq<nat>, n: nat)
    requires IsLoop(W, j, p, n)
    ensures OnNodes(Lift(n, 0, |W|), LiftedWalk(j, p, n))
  {
    forall i | 0 <= i < |p|
      ensures LiftedWalk(j, p, n)[i] < Lift(n, 0, |W|)
    {
      LiftedAt(W, j, p, n, i);
    }
  }

  lemma LiftedHopsOnce(W: Waypoints, j: nat, p: seq<nat>, n: nat, i: nat, i': nat)
    requires IsLoop(W, j, p, n) && i < |p| - 1 && i' < |p| - 1
    ensures var q := LiftedWalk(j, p, n);
            && (Hop(q, i) == Hop(q, i') <==> i == i' || (i == j + 1 && i' == j + 6) || (i == j + 6 && i' == j + 1))
            && Hop(q, i) != Rev(Hop(q, i'))
  {
    LiftedAt(W, j, p, n, i);
    LiftedAt(W, j, p, n, i + 1);
    LiftedAt(W, j, p, n, i');
    LiftedAt(W, j, p, n, i' + 1);
    HopsOnce(W, j, p, n, i, i');
  }

  lemma LoopWeightsAtFirst(W: Waypoints, j: nat, p: seq<nat>, n: nat, lifted: IdxGraph)
    requires IsLoop(W, j, p, n) && IsLifting(LoopGraph(W, j, p, n), W, lifted)
    ensures LoopWeights(lifted, j, LiftedWalk(j, p, n), |W|, 1)
  {
    var q := LiftedWalk(j, p, n);
    forall i: nat | i < |q| - 1
      ensures StepWeighs(lifted, j, q, |W|, 1, i)
    {
      StepWeighsAtFirst(W, j, p, n, lifted, i);
    }
  }

  lemma StepWeighsAtFirst(W: Waypoints, j: nat, p: seq<nat>, n: nat, lifted: IdxGraph, i: nat)
    requires IsLoop(W, j, p, n) && IsLifting(LoopGraph(W, j, p, n), W, lifted) && i < |p| - 1
    ensures StepWeighs(lifted, j, LiftedWalk(j, p, n), |W|, 1, i)
  {
    var g, q := LoopGraph(W, j, p, n), LiftedWalk(j, p, n);
    LiftedAt(W, j, p, n, i);
    LiftedAt(W, j, p, n, i + 1);
    NextLevelOf(W, j, p, n, i);
    assert BaseEdge(n, Hop(q, i)) == Hop(p, i) && Hop(p, i) in Hops(p);
    assert Weight(lifted, Hop(q, i)) == LiftedWeight(g, W, Hop(q, i)) == Weight(g, Hop(p, i));
    assert Weight(g, Hop(p, i)) == LoopWeight(W, j, p, Hop(p, i)) by {
      LoopGraphWeighs(W, j, p, n);
    }
    HopsOnce(W, j, p, n, i, j + 1);
  }

  lemma NextLevelOf(W: Waypoints, j: nat, p: seq<nat>, n: nat, i: nat)
    requires IsLoop(W, j, p, n) && i < |p| - 1
    ensures NextLevel(W, LevelOf(j, i), p[i + 1]) == LevelOf(j, i + 1) && LevelOf(j, i) < |W|
  {
    var l := LevelOf(j, i) + 1;
    assert l < |W| ==> (p[i + 1] in W[l] <==> l == LevelOf(j, i + 1) && !Between(j, i + 1));
  }

  // ---------------------------------------------------------------------------------
  // The walk is one that the staged search may join

  /** The position at which the walk ends its leg into W[l]. */
  function VisitOf(j: nat, l: nat): nat {
    if l < j then l else if l == j then j + 4 else l + 7
  }

  function LoopPos(k: nat, j: nat): (pos: seq<nat>)
    ensures |pos| == k
  {
    seq(k, l requires 0 <= l < k => VisitOf(j, l))
  }

  lemma {:induction false} VisitStaged(W: Waypoints, j: nat, p: seq<nat>, n: nat, E: set<Edge>, l: nat)
    requires IsLoop(W, j, p, n) && IsWalk(E, LiftedWalk(j, p, n)) && l < |W|
    ensures LiftedWalk(j, p, n)[VisitOf(j, l)] in Stage(E, LiftWaypoints(n, W), l)
  {
    var q, L, v := LiftedWalk(j, p, n), LiftWaypoints(n, W), VisitOf(j, l);
    assert q[v] in L[l] by {
      LiftedAt(W, j, p, n, v);
    }
    if l > 0 {
      var u := VisitOf(j, l - 1);
      VisitStaged(W, j, p, n, E, l - 1);
      LegReaches(E, q, Stage(E, L, l - 1), u, v);
    }
  }

  lemma LegReaches(E: set<Edge>, q: seq<nat>, sources: set<nat>, u: nat, v: nat)
    requires IsWalk(E, q) && u < v < |q| && q[u] in sources
    ensures PosReach(E, sources, q[v])
  {
    SliceOfWalk(E, q, u, v + 1);
    var leg := q[u..v + 1];
    assert leg[|leg| - 1] == q[v];
  }

  lemma VisitIsLeg(W: Waypoints, j: nat, p: seq<nat>, n: nat, stage: set<nat>, l: nat)
    requires IsLoop(W, j, p, n) && l + 1 < |W| && stage <= LiftSet(n, W[l], l)
    requires LiftedWalk(j, p, n)[VisitOf(j, l)] in stage
    ensures IsLeg(stage, LiftedWalk(j, p, n), VisitOf(j, l), VisitOf(j, l + 1))
  {
    var q, a, b := LiftedWalk(j, p, n), VisitOf(j, l), VisitOf(j, l + 1);
    forall i, i' | a < i < i' <= b
      ensures q[i] != q[i']
    {
      LiftedAt(W, j, p, n, i);
      LiftedAt(W, j, p, n, i');
      assert Canonical(j, i) != Canonical(j, i');
    }
    forall i | a < i < b
      ensures q[i] !in stage
    {
      LiftedAt(W, j, p, n, i);
    }
  }

  lemma LoopWalkIsStaged(W: Waypoints, j: nat, p: seq<nat>, n: nat, E: set<Edge>)
    requires IsLoop(W, j, p, n) && IsWalk(E, LiftedWalk(j, p, n))
    ensures StagedWalk(E, LiftWaypoints(n, W), 0, LiftedWalk(j, p, n), LoopPos(|W|, j))
  {
    var L, q, pos := LiftWaypoints(n, W), LiftedWalk(j, p, n), LoopPos(|W|, j);
    VisitStaged(W, j, p, n, E, |W| - 1);
    forall l | 0 <= l < |pos| - 1
      ensures IsLeg(Stage(E, L, 0 + l), q, pos[l], pos[l + 1])
    {
      VisitStaged(W, j, p, n, E, l);
      VisitIsLeg(W, j, p, n, Stage(E, L, l), l);
    }
  }

  // ---------------------------------------------------------------------------------
  // After two augmentations nothing leaves the first set

  lemma OnlyWayOut(W: Waypoints, j: nat, p: seq<nat>, n: nat, lifted: IdxGraph, r: IdxGraph, e: Edge)
    requires IsLoop(W, j, p, n) && IsLifting(LoopGraph(W, j, p, n), W, lifted) && IsResidual(lifted, r)
    requires e in Edges(r) && e.src in LiftSet(n, W[0], 0)
    ensures e == Hop(LiftedWalk(j, p, n), 0)
  {
    var q := LiftedWalk(j, p, n);
    LiftSetDecodes(n, W[0], 0, e.src);
    var d := if e in Edges(lifted) then e else Rev(e);
    var i := LiftedStep(W, j, p, n, lifted, d);
    assert p[i] in W[0] <==> i == 0;
    assert p[i + 1] !in W[0];
    assert d == e && i == 0;
    LiftEncodes(n, e.src);
    LiftEncodes(n, e.dst);
  }

  /** An edge of the lifted graph lies over a step of the walk. */
  lemma LiftedStep(W: Waypoints, j: nat, p: seq<nat>, n: nat, lifted: IdxGraph, d: Edge) returns (i: nat)
    requires IsLoop(W, j, p, n) && IsLifting(LoopGraph(W, j, p, n), W, lifted) && d in Edges(lifted)
    ensures i < |p| - 1 && BaseEdge(n, d) == Hop(p, i)
    ensures Level(n, d.src) == LevelOf(j, i) ==> Level(n, d.dst) == LevelOf(j, i + 1)
  {
    LoopGraphWeighs(W, j, p, n);
    LiftingClimbs(LoopGraph(W, j, p, n), W, lifted, d);
    i :| 0 <= i < |p| - 1 && BaseEdge(n, d) == Hop(p, i);
    EdgesAreWeighted(lifted, d);
    assert LiftedWeight(LoopGraph(W, j, p, n), W, d) > 0;
    NextLevelOf(W, j, p, n, i);
  }

  lemma NoWayOut(E: set<Edge>, sources: set<nat>, v: nat)
    requires forall e :: e in E ==> e.src !in sources
    ensures !PosReach(E, sources, v)
  {
    if p :| IsWalk(E, p) && |p| >= 2 && p[0] in sources && p[|p| - 1] == v {
      FirstHop(E, p);
    }
  }

  lemma FirstHop(E: set<Edge>, p: seq<nat>)
    requires IsWalk(E, p) && |p| >= 2
    ensures exists e :: e in E && e.src == p[0]
  {
    assert Hop(p, 0) in E;
  }

  lemma StuckIsSeparated(E: set<Edge>, L: Waypoints)
    requires |L| >= 2 && forall e :: e in E ==> e.src !in L[0]
    ensures Separated(E, L)
  {
    if !Separated(E, L) {
      var t := StagedIsReached(E, L);
      NoWayOut(E, L[0], t);
    }
  }

  lemma NothingLeavesStart(W: Waypoints, j: nat, p: seq<nat>, n: nat, lifted: IdxGraph, r: IdxGraph)
    requires IsLoop(W, j, p, n) && IsLifting(LoopGraph(W, j, p, n), W, lifted) && IsResidual(lifted, r)
    requires Weight(r, Hop(LiftedWalk(j, p, n), 0)) == 0
    ensures Separated(Edges(r), LiftWaypoints(n, W))
    ensures forall v :: !PosReach(Edges(r), LiftSet(n, W[0], 0), v)
  {
    var sources := LiftSet(n, W[0], 0);
    forall e | e in Edges(r)
      ensures e.src !in sources
    {
      EdgesAreWeighted(r, e);
      if e.src in sources {
        OnlyWayOut(W, j, p, n, lifted, r, e);
      }
    }
    forall v
      ensures !PosReach(Edges(r), sources, v)
    {
      NoWayOut(Edges(r), sources, v);
    }
    StuckIsSeparated(Edges(r), LiftWaypoints(n, W));
  }

  // ---------------------------------------------------------------------------------
  // The run

  lemma LiftedLoopSteps(W: Waypoints, j: nat, p: seq<nat>, n: nat)
    requires IsLoop(W, j, p, n)
    ensures LoopSteps(j, LiftedWalk(j, p, n))
  {
    var q := LiftedWalk(j, p, n);
    forall i: nat, i': nat | i < |q| - 1 && i' < |q| - 1
      ensures StepsCompare(j, q, i, i')
    {
      LiftedHopsOnce(W, j, p, n, i, i');
    }
  }

  lemma LoopIsJoinable(W: Waypoints, j: nat, p: seq<nat>, n: nat)
    requires IsLoop(W, j, p, n)
    ensures Joinable(LiftWaypoints(n, W), LiftedWalk(j, p, n), LoopPos(|W|, j))
  {
    forall E | IsWalk(E, LiftedWalk(j, p, n))
      ensures StagedWalk(E, LiftWaypoints(n, W), 0, LiftedWalk(j, p, n), LoopPos(|W|, j))
    {
      LoopWalkIsStaged(W, j, p, n, E);
    }
  }

  /** The run on the lifted graph of the loop: after its two augmentations the search fails. */
  lemma LiftedLoopRun(W: Waypoints, j: nat, p: seq<nat>, n: nat, lifted: IdxGraph) returns (run: Run)
    requires IsLoop(W, j, p, n) && IsLifting(LoopGraph(W, j, p, n), W, lifted)
    ensures IsRun(lifted, LiftWaypoints(n, W), run) && run.Length() == 2 && run.Total() == |W| && !run.Simple()
    ensures Weight(run.before.Left(lifted), Hop(LiftedWalk(j, p, n), j + 1)) == TWO_TO_THE_32 - 1
    ensures Separated(Edges(run.Left(lifted)), LiftWaypoints(n, W))
    ensures forall v :: !PosReach(Edges(run.Left(lifted)), LiftSet(n, W[0], 0), v)
  {
    LiftedLoopSteps(W, j, p, n);
    LoopIsJoinable(W, j, p, n);
    LiftedWalkOnNodes(W, j, p, n);
    LoopWeightsAtFirst(W, j, p, n, lifted);
    run := LoopRun(LiftWaypoints(n, W), j, LiftedWalk(j, p, n), LoopPos(|W|, j), lifted, |W|);
    NothingLeavesStart(W, j, p, n, lifted, run.Left(lifted));
  }

  // ---------------------------------------------------------------------------------
  // The cut that is left, and a lighter one

  lemma CutOfLoop(W: Waypoints, j: nat, p: seq<nat>, n: nat, lifted: IdxGraph)
    requires IsLoop(W, j, p, n) && IsLifting(LoopGraph(W, j, p, n), W, lifted)
    ensures ProjectedCut(n, lifted, LiftSet(n, W[0], 0)) == {Hop(p, 0)}
  {
    var q, sources := LiftedWalk(j, p, n), LiftSet(n, W[0], 0);
    LiftedAt(W, j, p, n, 0);
    LiftedAt(W, j, p, n, 1);
    assert BaseEdge(n, Hop(q, 0)) == Hop(p, 0);
    StepWeighsAtFirst(W, j, p, n, lifted, 0);
    EdgesAreWeighted(lifted, Hop(q, 0));
    assert Hop(q, 0) in Leaving(Edges(lifted), sources);
    forall e | e in Leaving(Edges(lifted), sources)
      ensures e == Hop(q, 0)
    {
      assert IsResidual(lifted, lifted);
      OnlyWayOut(W, j, p, n, lifted, lifted, e);
    }
  }

  /** The nodes of the walk up to x2 and on the way back to it: without the bottleneck no edge leads out of them. */
  ghost function Before(j: nat, p: seq<nat>): set<nat> {
    set i | 0 <= i < |p| && i <= j + 6 && i != j + 2 :: p[i]
  }

  lemma BeforeIsClosed(W: Waypoints, j: nat, p: seq<nat>, n: nat, e: Edge)
    requires IsLoop(W, j, p, n) && e in Hops(p) && e != Hop(p, j + 1) && (e.src in W[0] || e.src in Before(j, p))
    ensures e.dst in Before(j, p)
  {
    var i :| 0 <= i < |p| - 1 && e == Hop(p, i);
    if e.src in W[0] {
      assert i == 0;
      assert p[1] in Before(j, p);
    } else {
      var m :| 0 <= m < |p| && m <= j + 6 && m != j + 2 && p[m] == p[i];
      assert Canonical(j, m) == Canonical(j, i);
      HopsOnce(W, j, p, n, i, j + 1);
      assert p[i + 1] in Before(j, p);
    }
  }

  lemma BottleneckSeparates(W: Waypoints, j: nat, p: seq<nat>, n: nat)
    requires IsLoop(W, j, p, n)
    ensures Separates(LoopGraph(W, j, p, n), {Hop(p, j + 1)}, W)
  {
    LoopGraphWeighs(W, j, p, n);
    var E, k := Hops(p) - {Hop(p, j + 1)}, |W| - 1;
    forall e | e in E && (e.src in W[0] || e.src in Before(j, p))
      ensures e.dst in Before(j, p)
    {
      BeforeIsClosed(W, j, p, n, e);
    }
    forall i | 0 <= i < |p| && i <= j + 6
      ensures p[i] !in W[k]
    {
    }
    forall w | IsWalk(E, w)
      ensures !Admits(w, W)
    {
      if pos :| VisitsInOrder(w, W, pos) {
        assert w[pos[0]] in W[0] && w[pos[k]] in W[k] && pos[0] < pos[k];
        SliceOfWalk(E, w, pos[0], pos[k] + 1);
        WalkStays(E, W[0], Before(j, p), w[pos[0]..pos[k] + 1], pos[k] - pos[0]);
      }
    }
  }

  lemma CutIsHeavy(W: Waypoints, j: nat, p: seq<nat>, n: nat)
    requires IsLoop(W, j, p, n)
    ensures !NearMinimal(LoopGraph(W, j, p, n), W, {Hop(p, 0)})
  {
    var g, heavy, light := LoopGraph(W, j, p, n), Hop(p, 0), Hop(p, j + 1);
    LoopGraphWeighs(W, j, p, n);
    HopsOnce(W, j, p, n, 0, j + 1);
    BottleneckSeparates(W, j, p, n);
    SumWithout(g, {heavy}, heavy);
    SumWithout(g, {light}, light);
    assert {heavy} - {heavy} == {} && {light} - {light} == {};
    assert SumW(g, {heavy}) == |W| && SumW(g, {light}) == 1;
  }

  // ---------------------------------------------------------------------------------
  // Any list with two nodes in a middle set has such a graph

  ghost predicate Disjoint(W: Waypoints) {
    forall i, l :: 0 <= i < l < |W| ==> W[i] !! W[l]
  }

  ghost predicate Inhabited(W: Waypoints) {
    forall l :: 0 <= l < |W| ==> W[l] != {}
  }

  lemma {:induction false} SetBound(s: set<nat>) returns (n: nat)
    ensures forall v :: v in s ==> v < n
    decreases s
  {
    if s == {} {
      n := 0;
    } else {
      var v :| v in s;
      var m := SetBound(s - {v});
      n := if v < m then m else v + 1;
      assert forall x :: x in s ==> x == v || x in s - {v};
    }
  }

  lemma {:induction false} ListBound(W: Waypoints) returns (n: nat)
    ensures forall l, v :: 0 <= l < |W| && v in W[l] ==> v < n
  {
    n := 0;
    if W != [] {
      var k := |W| - 1;
      var a := ListBound(W[..k]);
      var b := SetBound(W[k]);
      n := if a < b then b else a;
      forall l, v | 0 <= l < |W| && v in W[l]
        ensures v < n
      {
        assert l < k ==> W[..k][l] == W[l];
      }
    }
  }

  ghost function Pick(s: set<nat>): (v: nat)
    requires s != {}
    ensures v in s
  {
    var v :| v in s;
    v
  }

  lemma TwoNodes(s: set<nat>) returns (v: nat, v': nat)
    requires |s| >= 2
    ensures v in s && v' in s && v != v'
  {
    v :| v in s;
    assert |s - {v}| == |s| - 1;
    v' :| v' in s - {v};
  }

  lemma LoopExists(W: Waypoints, j: nat) returns (p: seq<nat>, n: nat)
    requires |W| < TWO_TO_THE_32 && 0 < j < |W| - 1 && Disjoint(W) && Inhabited(W) && |W[j]| >= 2
    ensures IsLoop(W, j, p, n)
  {
    var m := ListBound(W);
    var b, b' := TwoNodes(W[j]);
    n := m + 4;
    p := seq(|W| + 7, i requires 0 <= i < |W| + 7 => LoopNode(W, j, b, b', m, i));
    forall i, l | 0 <= i < |p| && 0 <= l < |W|
      ensures p[i] in W[l] <==> l == LevelOf(j, i) && !Between(j, i)
    {
      LoopNodeIn(W, j, b, b', m, i, l);
    }
    forall i, i' | 0 <= i < |p| && 0 <= i' < |p| && p[i] == p[i']
      ensures Canonical(j, i) == Canonical(j, i')
    {
      LoopNodesDiffer(W, j, b, b', m, i, i');
    }
    forall i | 0 <= i < |p|
      ensures p[i] < n
    {
      LoopNodeBelow(W, j, b, b', m, i);
    }
  }

  ghost predicate LoopChoice(W: Waypoints, j: nat, b: nat, b': nat, m: nat) {
    && 0 < j < |W| - 1 && Disjoint(W) && Inhabited(W) && b in W[j] && b' in W[j] && b != b'
    && forall l, v :: 0 <= l < |W| && v in W[l] ==> v < m
  }

  ghost function LoopNode(W: Waypoints, j: nat, b: nat, b': nat, m: nat, i: nat): nat
    requires LoopChoice(W, j, b, b', m) && i < |W| + 7
  {
    if i == j then b
    else if i == j + 4 then b'
    else if i == j + 1 || i == j + 6 then m
    else if i == j + 2 || i == j + 7 then m + 1
    else if i == j + 3 then m + 2
    else if i == j + 5 then m + 3
    else Pick(W[LevelOf(j, i)])
  }

  lemma LoopNodeBelow(W: Waypoints, j: nat, b: nat, b': nat, m: nat, i: nat)
    requires LoopChoice(W, j, b, b', m) && i < |W| + 7
    ensures LoopNode(W, j, b, b', m, i) < m + 4
    ensures if Between(j, i) then LoopNode(W, j, b, b', m, i) >= m else LoopNode(W, j, b, b', m, i) in W[LevelOf(j, i)]
  {
  }

  lemma LoopNodeIn(W: Waypoints, j: nat, b: nat, b': nat, m: nat, i: nat, l: nat)
    requires LoopChoice(W, j, b, b', m) && i < |W| + 7 && l < |W|
    ensures LoopNode(W, j, b, b', m, i) in W[l] <==> l == LevelOf(j, i) && !Between(j, i)
  {
    LoopNodeBelow(W, j, b, b', m, i);
    var h := LevelOf(j, i);
    assert l < h ==> W[l] !! W[h];
    assert h < l ==> W[h] !! W[l];
  }

  lemma LoopNodesDiffer(W: Waypoints, j: nat, b: nat, b': nat, m: nat, i: nat, i': nat)
    requires LoopChoice(W, j, b, b', m) && i < |W| + 7 && i' < |W| + 7
    requires LoopNode(W, j, b, b', m, i) == LoopNode(W, j, b, b', m, i')
    ensures Canonical(j, i) == Canonical(j, i')
  {
    LoopNodeBelow(W, j, b, b', m, i);
    LoopNodeBelow(W, j, b, b', m, i');
    if !Between(j, i) {
      LoopNodeIn(W, j, b, b', m, i', LevelOf(j, i));
    }
  }

  /** A graph that fits, with a run that the search has ended. */
  ghost predicate FittingRun(g: IdxGraph, W: Waypoints, lifted: IdxGraph, run: Run, reach: set<nat>)
    requires |W| >= 2
  {
    |g| > 0 && WellFormed(g) && WaypointsOf(g, W) && PairsFit(g) && StuckRun(g, W, lifted, run, reach)
  }

  /** Whatever the graph and the run, the cut left at the end is within k-1 of any separating set of edges. */
  ghost predicate BoundHolds(W: Waypoints)
    requires |W| >= 2
  {
    forall g, lifted, run, reach :: FittingRun(g, W, lifted, run, reach) ==> NearMinimal(g, W, ProjectedCut(|g|, lifted, reach))
  }

  lemma LiftingExists(g: IdxGraph, W: Waypoints) returns (lifted: IdxGraph)
    requires |g| > 0 && WellFormed(g)
    ensures IsLifting(g, W, lifted)
  {
    var n := Lift(|g|, 0, |W|);
    lifted := seq(n, x requires 0 <= x < n => map y | 0 <= y < n && LiftedWeight(g, W, Edge(x, y)) > 0 :: LiftedWeight(g, W, Edge(x, y)));
    forall e: Edge
      ensures Weight(lifted, e) == LiftedWeight(g, W, e)
    {
      LevelBound(|g|, e.src, |W|);
      LevelBound(|g|, e.dst, |W|);
    }
  }

  /**
   * With two nodes in a middle set there is a graph with a run whose cut weighs more than k-1 times a separating set.
   * The first augmentation makes the residual weight of the bottleneck wrap around to 2^32 - 1.
   */
  lemma FarFromMinimal(W: Waypoints, j: nat) returns (g: IdxGraph, lifted: IdxGraph, run: Run, reach: set<nat>)
    requires |W| < TWO_TO_THE_32 && 0 < j < |W| - 1 && Disjoint(W) && Inhabited(W) && |W[j]| >= 2
    ensures FittingRun(g, W, lifted, run, reach) && run.Length() == 2 && !run.Simple()
    ensures exists e :: Weight(lifted, e) == 1 && Weight(run.before.Left(lifted), e) == TWO_TO_THE_32 - 1
    ensures Separates(g, ProjectedCut(|g|, lifted, reach), W)
    ensures !NearMinimal(g, W, ProjectedCut(|g|, lifted, reach))
  {
    var p, n := LoopExists(W, j);
    g := LoopGraph(W, j, p, n);
    lifted, run, reach := LoopIsFar(W, j, p, n);
  }

  lemma LoopIsFar(W: Waypoints, j: nat, p: seq<nat>, n: nat) returns (lifted: IdxGraph, run: Run, reach: set<nat>)
    requires IsLoop(W, j, p, n)
    ensures var g := LoopGraph(W, j, p, n);
            && FittingRun(g, W, lifted, run, reach) && run.Length() == 2 && !run.Simple()
            && Separates(g, ProjectedCut(|g|, lifted, reach), W) && !NearMinimal(g, W, ProjectedCut(|g|, lifted, reach))
    ensures exists e :: Weight(lifted, e) == 1 && Weight(run.before.Left(lifted), e) == TWO_TO_THE_32 - 1
  {
    var g := LoopGraph(W, j, p, n);
    assert p[0] < n;
    assert WellFormed(g) && WaypointsOf(g, W) && PairsFit(g) by {
      LoopGraphWeighs(W, j, p, n);
      LoopPairsFit(W, j, p, n);
    }
    lifted := LiftingExists(g, W);
    run := LiftedLoopRun(W, j, p, n, lifted);
    reach := LiftSet(n, W[0], 0);
    ghost var e := Hop(LiftedWalk(j, p, n), j + 1);
    assert Weight(lifted, e) == 1 by {
      StepWeighsAtFirst(W, j, p, n, lifted, j + 1);
    }
    assert Separates(g, ProjectedCut(n, lifted, reach), W) by {
      StuckRunCuts(g, W, lifted, run, reach);
    }
    assert !NearMinimal(g, W, ProjectedCut(n, lifted, reach)) by {
      CutOfLoop(W, j, p, n, lifted);
      CutIsHeavy(W, j, p, n);
    }
  }

  /** For lists of disjoint sets, the weight is bounded on all graphs exactly when no middle set has two nodes. */
  lemma BoundIffSingletons(W: Waypoints)
    requires 2 <= |W| < TWO_TO_THE_32 && Disjoint(W) && Inhabited(W)
    ensures BoundHolds(W) <==> SingletonMiddles(W)
  {
    if SingletonMiddles(W) {
      forall g, lifted, run, reach | FittingRun(g, W, lifted, run, reach)
        ensures NearMinimal(g, W, ProjectedCut(|g|, lifted, reach))
      {
        RunKeeps(g, W, lifted, run);
        StuckRunCuts(g, W, lifted, run, reach);
      }
    } else {
      var j :| 0 < j < |W| - 1 && |W[j]| > 1;
      var g, lifted, run, reach := FarFromMinimal(W, j);
    }
  }
}
