/** A run that augments twice along a walk that uses one edge twice: the weight of that edge wraps around. */
module LoopRuns {
  import opened Graphs
  import opened Waypoints
  import opened Search
  import opened Residual
  import opened RepeatedPushes
  import opened Runs

  predicate OnBottleneck(j: nat, i: nat) {
    i == j + 1 || i == j + 6
  }

  /** How two steps of the walk compare: only the bottleneck is there twice, and no edge in both directions. */
  ghost predicate StepsCompare(j: nat, q: seq<nat>, i: nat, i': nat)
    requires i + 1 < |q| && i' + 1 < |q|
  {
    && (Hop(q, i) == Hop(q, i') <==> i == i' || (OnBottleneck(j, i) && OnBottleneck(j, i')))
    && Hop(q, i) != Rev(Hop(q, i'))
  }

  ghost predicate LoopSteps(j: nat, q: seq<nat>) {
    && j + 8 < |q|
    && forall i: nat, i': nat :: i < |q| - 1 && i' < |q| - 1 ==> StepsCompare(j, q, i, i')
  }

  ghost predicate StepWeighs(r: IdxGraph, j: nat, q: seq<nat>, wide: u32, narrow: u32, i: nat)
    requires i + 1 < |q|
  {
    Weight(r, Hop(q, i)) == if OnBottleneck(j, i) then narrow else wide
  }

  /** The edges of the lifted walk weigh `wide` each but for the bottleneck. */
  ghost predicate LoopWeights(r: IdxGraph, j: nat, q: seq<nat>, wide: u32, narrow: u32) {
    forall i: nat :: i < |q| - 1 ==> StepWeighs(r, j, q, wide, narrow, i)
  }

  lemma LoopWalkIsWalk(r: IdxGraph, j: nat, q: seq<nat>, wide: u32, narrow: u32)
    requires WellFormed(r) && LoopWeights(r, j, q, wide, narrow) && wide > 0 && narrow > 0 && q != []
    ensures IsWalk(Edges(r), q)
  {
    forall i: nat | i < |q| - 1
      ensures Hop(q, i) in Edges(r)
    {
      assert StepWeighs(r, j, q, wide, narrow, i);
      EdgesAreWeighted(r, Hop(q, i));
    }
  }

  lemma OtherOnce(j: nat, q: seq<nat>, i: nat)
    requires LoopSteps(j, q) && i < |q| - 1 && !OnBottleneck(j, i)
    ensures Hop(q, i) != Rev(Hop(q, i))
    ensures Untouched(q, Hop(q, i), 0, i) && Untouched(q, Hop(q, i), i + 1, |q| - 1)
  {
    assert StepsCompare(j, q, i, i);
    forall i': nat | i' < |q| - 1 && i' != i
      ensures Hop(q, i') != Hop(q, i) && Hop(q, i') != Rev(Hop(q, i))
    {
      assert StepsCompare(j, q, i', i);
    }
  }

  lemma BottleneckTwice(j: nat, q: seq<nat>)
    requires LoopSteps(j, q)
    ensures var e := Hop(q, j + 1);
            && Hop(q, j + 6) == e != Rev(e)
            && Untouched(q, e, 0, j + 1) && Untouched(q, e, j + 2, j + 6) && Untouched(q, e, j + 7, |q| - 1)
  {
    assert StepsCompare(j, q, j + 6, j + 1) && StepsCompare(j, q, j + 1, j + 1);
    forall i: nat | i < |q| - 1 && !OnBottleneck(j, i)
      ensures Hop(q, i) != Hop(q, j + 1) && Hop(q, i) != Rev(Hop(q, j + 1))
    {
      assert StepsCompare(j, q, i, j + 1);
    }
  }

  lemma LoopPushedAt(j: nat, q: seq<nat>, r: IdxGraph, wide: u32, narrow: u32, flow: u32, i: nat)
    requires LoopSteps(j, q) && OnNodes(|r|, q) && i < |q| - 1 && StepWeighs(r, j, q, wide, narrow, i)
    ensures StepWeighs(Pushed(r, q, flow, |q| - 1), j, q, Sub32(wide, flow), Sub32(Sub32(narrow, flow), flow), i)
  {
    var m, e := |q| - 1, Hop(q, i);
    if OnBottleneck(j, i) {
      assert e == Hop(q, j + 1) by {
        assert StepsCompare(j, q, i, j + 1);
      }
      BottleneckTwice(j, q);
      PushedTwice(r, q, flow, j + 1, j + 6, m, e);
    } else {
      OtherOnce(j, q, i);
      PushedOnce(r, q, flow, i, m, e);
    }
  }

  /** One augmentation along the loop: the bottleneck loses the flow twice, modulo 2^32. */
  lemma LoopPushed(j: nat, q: seq<nat>, r: IdxGraph, wide: u32, narrow: u32, flow: u32)
    requires LoopSteps(j, q) && OnNodes(|r|, q) && LoopWeights(r, j, q, wide, narrow)
    ensures LoopWeights(Pushed(r, q, flow, |q| - 1), j, q, Sub32(wide, flow), Sub32(Sub32(narrow, flow), flow))
  {
    var r', w, w' := Pushed(r, q, flow, |q| - 1), Sub32(wide, flow), Sub32(Sub32(narrow, flow), flow);
    forall i: nat | i < |q| - 1
      ensures StepWeighs(r', j, q, w, w', i)
    {
      assert StepWeighs(r, j, q, wide, narrow, i);
      LoopPushedAt(j, q, r, wide, narrow, flow, i);
    }
  }

  /** Whenever all its edges are there, the staged search may join the walk. */
  ghost predicate Joinable(L: Waypoints, q: seq<nat>, pos: seq<nat>)
    requires |L| >= 1
  {
    forall E :: IsWalk(E, q) ==> StagedWalk(E, L, 0, q, pos)
  }

  lemma LoopAugments(L: Waypoints, j: nat, q: seq<nat>, pos: seq<nat>, r: IdxGraph, wide: u32, narrow: u32, flow: u32)
    requires |L| >= 1 && Joinable(L, q, pos) && LoopSteps(j, q)
    requires WellFormed(r) && OnNodes(|r|, q) && LoopWeights(r, j, q, wide, narrow)
    requires 0 < flow <= wide && flow <= narrow && (flow == wide || flow == narrow)
    ensures Augments(r, L, Augmentation(q, pos, flow))
  {
    LoopWalkIsWalk(r, j, q, wide, narrow);
    forall i: nat | i < |q| - 1
      ensures flow <= Weight(r, Hop(q, i))
    {
      assert StepWeighs(r, j, q, wide, narrow, i);
    }
    var i := if flow == wide then 0 else j + 1;
    assert StepWeighs(r, j, q, wide, narrow, i);
    assert Weight(r, Hop(q, i)) == flow;
  }

  /** One step of the run. */
  lemma LoopStep(L: Waypoints, j: nat, q: seq<nat>, pos: seq<nat>, lifted: IdxGraph, r: IdxGraph,
                 wide: u32, narrow: u32, flow: u32)
    returns (r': IdxGraph)
    requires |L| >= 1 && Joinable(L, q, pos) && LoopSteps(j, q)
    requires IsResidual(lifted, r) && OnNodes(|r|, q) && LoopWeights(r, j, q, wide, narrow)
    requires 0 < flow <= wide && flow <= narrow && (flow == wide || flow == narrow)
    ensures AugmentsTo(r, L, Augmentation(q, pos, flow), r') && IsResidual(lifted, r') && |r'| == |r|
    ensures LoopWeights(r', j, q, Sub32(wide, flow), Sub32(Sub32(narrow, flow), flow))
  {
    r' := Pushed(r, q, flow, |q| - 1);
    LoopPushed(j, q, r, wide, narrow, flow);
    LoopWalkIsWalk(r, j, q, wide, narrow);
    PushedKeepsResidual(lifted, r, q, flow, |q| - 1);
    LoopAugments(L, j, q, pos, r, wide, narrow, flow);
  }

  lemma TwoSteps(g: IdxGraph, L: Waypoints, a1: Augmentation, r1: IdxGraph, a2: Augmentation, r2: IdxGraph)
    requires |L| >= 1 && AugmentsTo(g, L, a1, r1) && AugmentsTo(r1, L, a2, r2)
    ensures var run := Then(Then(Start, a1, r1), a2, r2);
            && IsRun(g, L, run) && run.Length() == 2 && run.Total() == a1.flow + a2.flow
            && (run.Simple() <==> EdgeSimple(a1.walk) && EdgeSimple(a2.walk))
  {
    var start: Run := Start;
    assert start.Total() == 0 && start.Length() == 0 && start.Simple() && IsRun(g, L, start);
    var first := Then(start, a1, r1);
    assert first.Total() == a1.flow && first.Length() == 1 && IsRun(g, L, first);
  }

  /** Two augmentations along the same walk, the first with flow 1, the second with flow k-1. */
  lemma LoopRun(L: Waypoints, j: nat, q: seq<nat>, pos: seq<nat>, lifted: IdxGraph, k: u32) returns (run: Run)
    requires |L| >= 1 && Joinable(L, q, pos) && LoopSteps(j, q) && k >= 2
    requires WellFormed(lifted) && OnNodes(|lifted|, q) && LoopWeights(lifted, j, q, k, 1)
    ensures IsRun(lifted, L, run) && run.Length() == 2 && run.Total() == k && !run.Simple()
    ensures Weight(run.before.Left(lifted), Hop(q, j + 1)) == TWO_TO_THE_32 - 1
    ensures IsResidual(lifted, run.Left(lifted)) && (j > 0 ==> Weight(run.Left(lifted), Hop(q, 0)) == 0)
  {
    var r1, r2 := LoopStates(L, j, q, pos, lifted, k);
    var a1, a2 := Augmentation(q, pos, 1), Augmentation(q, pos, k - 1);
    TwoSteps(lifted, L, a1, r1, a2, r2);
    run := Then(Then(Start, a1, r1), a2, r2);
    assert !EdgeSimple(q) by {
      assert StepsCompare(j, q, j + 1, j + 6);
    }
  }

  lemma LoopStates(L: Waypoints, j: nat, q: seq<nat>, pos: seq<nat>, lifted: IdxGraph, k: u32) returns (r1: IdxGraph, r2: IdxGraph)
    requires |L| >= 1 && Joinable(L, q, pos) && LoopSteps(j, q) && k >= 2
    requires WellFormed(lifted) && OnNodes(|lifted|, q) && LoopWeights(lifted, j, q, k, 1)
    ensures AugmentsTo(lifted, L, Augmentation(q, pos, 1), r1) && AugmentsTo(r1, L, Augmentation(q, pos, k - 1), r2)
    ensures Weight(r1, Hop(q, j + 1)) == TWO_TO_THE_32 - 1
    ensures IsResidual(lifted, r2) && (j > 0 ==> Weight(r2, Hop(q, 0)) == 0)
  {
    assert IsResidual(lifted, lifted);
    r1 := LoopStep(L, j, q, pos, lifted, lifted, k, 1, 1);
    r2 := LoopStep(L, j, q, pos, lifted, r1, k - 1, TWO_TO_THE_32 - 1, k - 1);
    assert StepWeighs(r1, j, q, k - 1, TWO_TO_THE_32 - 1, j + 1);
    assert StepWeighs(r2, j, q, 0, Sub32(Sub32(TWO_TO_THE_32 - 1, k - 1), k - 1), 0);
  }
}
