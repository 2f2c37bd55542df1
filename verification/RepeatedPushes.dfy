/** What pushes along a walk do to one edge, with or without wrap-around. */
module RepeatedPushes {
  import opened Graphs
  import opened ScopedGraphs
  import opened Residual

  /** From the m-th to the n-th, no edge of the walk is `e` or its reverse. */
  ghost predicate Untouched(p: seq<nat>, e: Edge, m: nat, n: nat) {
    forall i :: m <= i < n && i + 1 < |p| ==> Hop(p, i) != e && Hop(p, i) != Rev(e)
  }

  lemma PushElsewhere(r: IdxGraph, d: Edge, flow: u32, e: Edge)
    requires d.src < |r| && d.dst < |r| && d != e && d != Rev(e)
    ensures Weight(Push(r, d, flow), e) == Weight(r, e)
  {
    var r1 := SetWeight(r, d, Sub32(Weight(r, d), flow));
    WeightAfterSet(r, d, Sub32(Weight(r, d), flow), e);
    WeightAfterSet(r1, Rev(d), Add32(Weight(r1, Rev(d)), flow), e);
  }

  lemma PushHere(r: IdxGraph, e: Edge, flow: u32)
    requires e.src < |r| && e.dst < |r| && e != Rev(e)
    ensures Weight(Push(r, e, flow), e) == Sub32(Weight(r, e), flow)
  {
    var r1 := SetWeight(r, e, Sub32(Weight(r, e), flow));
    WeightAfterSet(r, e, Sub32(Weight(r, e), flow), e);
    WeightAfterSet(r1, Rev(e), Add32(Weight(r1, Rev(e)), flow), e);
  }

  lemma {:induction false} PushedElsewhere(r: IdxGraph, p: seq<nat>, flow: u32, m: nat, n: nat, e: Edge)
    requires m <= n < |p| && OnNodes(|r|, p) && Untouched(p, e, m, n)
    ensures Weight(Pushed(r, p, flow, n), e) == Weight(Pushed(r, p, flow, m), e)
    decreases n
  {
    if m < n {
      var before, d := Pushed(r, p, flow, n - 1), Hop(p, n - 1);
      assert d != e && d != Rev(e);
      PushedElsewhere(r, p, flow, m, n - 1, e);
      PushElsewhere(before, d, flow, e);
      assert Pushed(r, p, flow, n) == Push(before, d, flow);
    }
  }

  /** The step of the walk that is the edge takes the flow off it. */
  lemma PushedHere(r: IdxGraph, p: seq<nat>, flow: u32, i: nat, e: Edge)
    requires i + 1 < |p| && OnNodes(|r|, p) && Hop(p, i) == e != Rev(e)
    ensures Weight(Pushed(r, p, flow, i + 1), e) == Sub32(Weight(Pushed(r, p, flow, i), e), flow)
  {
    PushHere(Pushed(r, p, flow, i), e, flow);
    assert Pushed(r, p, flow, i + 1) == Push(Pushed(r, p, flow, i), e, flow);
  }

  /** An edge that the walk uses once loses the flow once. */
  lemma PushedOnce(r: IdxGraph, p: seq<nat>, flow: u32, i: nat, n: nat, e: Edge)
    requires i < n < |p| && OnNodes(|r|, p) && Hop(p, i) == e != Rev(e)
    requires Untouched(p, e, 0, i) && Untouched(p, e, i + 1, n)
    ensures Weight(Pushed(r, p, flow, n), e) == Sub32(Weight(r, e), flow)
  {
    PushedElsewhere(r, p, flow, 0, i, e);
    PushedHere(r, p, flow, i, e);
    PushedElsewhere(r, p, flow, i + 1, n, e);
  }

  /** An edge that the walk uses twice loses it twice. */
  lemma PushedTwice(r: IdxGraph, p: seq<nat>, flow: u32, i: nat, j: nat, n: nat, e: Edge)
    requires i < j < n < |p| && OnNodes(|r|, p) && Hop(p, i) == Hop(p, j) == e && e != Rev(e)
    requires Untouched(p, e, 0, i) && Untouched(p, e, i + 1, j) && Untouched(p, e, j + 1, n)
    ensures Weight(Pushed(r, p, flow, n), e) == Sub32(Sub32(Weight(r, e), flow), flow)
  {
    PushedOnce(r, p, flow, i, j, e);
    PushedHere(r, p, flow, j, e);
    PushedElsewhere(r, p, flow, j + 1, n, e);
  }
}
