/**
 * Pushing flow along a walk of the residual graph, with the 32-bit arithmetic of the code: what each
 * push keeps, and how it changes the weight that leaves a set of nodes.
 */
module Residual {
  import opened Graphs
  import opened Waypoints
  import opened ScopedGraphs
  import opened Lifting
  import opened Climbing
  import opened Weights

  function Rev(e: Edge): Edge {
    Edge(e.dst, e.src)
  }

  /** Unsigned subtraction, which wraps around below zero. */
  function Sub32(a: u32, b: u32): u32 {
    (a - b) % TWO_TO_THE_32
  }

  /** Unsigned addition, which wraps around at 2^32. */
  function Add32(a: u32, b: u32): u32 {
    (a + b) % TWO_TO_THE_32
  }

  /** One step of an augmentation: `flow` less on the edge, then `flow` more on its reverse. */
  function Push(r: IdxGraph, e: Edge, flow: u32): (r': IdxGraph)
    requires e.src < |r| && e.dst < |r|
    ensures |r'| == |r|
  {
    var less := SetWeight(r, e, Sub32(Weight(r, e), flow));
    SetWeight(less, Rev(e), Add32(Weight(less, Rev(e)), flow))
  }

  ghost predicate OnNodes(n: nat, p: seq<nat>) {
    forall i :: 0 <= i < |p| ==> p[i] < n
  }

  /** The residual graph after the first m edges of the walk got their share. */
  ghost function Pushed(r: IdxGraph, p: seq<nat>, flow: u32, m: nat): (r': IdxGraph)
    requires m < |p| && OnNodes(|r|, p)
    ensures |r'| == |r|
  {
    if m == 0 then r else Push(Pushed(r, p, flow, m - 1), Hop(p, m - 1), flow)
  }

  // ---------------------------------------------------------------------------------
  // What holds whether or not the arithmetic wraps around: edges of the residual graph
  // are edges of the graph or their reverses

  ghost predicate IsResidual(g: IdxGraph, r: IdxGraph) {
    && |r| == |g|
    && WellFormed(r)
    && forall e :: e in Edges(r) ==> e in Edges(g) || Rev(e) in Edges(g)
  }

  lemma PushKeepsResidual(g: IdxGraph, r: IdxGraph, e: Edge, flow: u32)
    requires IsResidual(g, r) && e.src < |r| && e.dst < |r| && (e in Edges(g) || Rev(e) in Edges(g))
    ensures IsResidual(g, Push(r, e, flow))
  {
    var r1 := SetWeight(r, e, Sub32(Weight(r, e), flow));
    var r2 := Push(r, e, flow);
    SetKeepsWellFormed(r, e, Sub32(Weight(r, e), flow));
    SetKeepsWellFormed(r1, Rev(e), Add32(Weight(r1, Rev(e)), flow));
    forall d | d in Edges(r2)
      ensures d in Edges(g) || Rev(d) in Edges(g)
    {
      WeightAfterSet(r, e, Sub32(Weight(r, e), flow), d);
      WeightAfterSet(r1, Rev(e), Add32(Weight(r1, Rev(e)), flow), d);
      EdgesAreWeighted(r2, d);
      EdgesAreWeighted(r, d);
    }
  }

  lemma {:induction false} PushedKeepsResidual(g: IdxGraph, r: IdxGraph, p: seq<nat>, flow: u32, m: nat)
    requires IsResidual(g, r) && IsWalk(Edges(r), p) && m < |p| && OnNodes(|r|, p)
    ensures IsResidual(g, Pushed(r, p, flow, m))
  {
    if m > 0 {
      PushedKeepsResidual(g, r, p, flow, m - 1);
      assert Hop(p, m - 1) in Edges(r);
      PushKeepsResidual(g, Pushed(r, p, flow, m - 1), Hop(p, m - 1), flow);
    }
  }

  /** No residual edge climbs but into the waypoint set of the next level. */
  lemma ResidualClimbs(g: IdxGraph, W: Waypoints, lifted: IdxGraph, r: IdxGraph)
    requires |g| > 0 && IsLifting(g, W, lifted) && IsResidual(lifted, r)
    ensures AllClimb(|g|, W, Edges(r))
  {
    forall e | e in Edges(r)
      ensures Climbs(|g|, W, e)
    {
      if e in Edges(lifted) {
        LiftingClimbs(g, W, lifted, e);
      } else {
        LiftingClimbs(g, W, lifted, Rev(e));
      }
    }
  }

  // ---------------------------------------------------------------------------------
  // What holds as long as the arithmetic does not wrap around

  /** The weights of each pair of opposite edges add up to a 32-bit number. */
  ghost predicate PairsFit(g: IdxGraph) {
    forall e: Edge {:trigger Rev(e)} :: e != Rev(e) ==> Weight(g, e) + Weight(g, Rev(e)) < TWO_TO_THE_32
  }

  /** What a residual edge lost, its reverse has gained. */
  ghost predicate Balanced(g: IdxGraph, r: IdxGraph) {
    forall e: Edge {:trigger Rev(e)} :: Weight(r, e) + Weight(r, Rev(e)) == Weight(g, e) + Weight(g, Rev(e))
  }

  lemma ExactPush(r: IdxGraph, e: Edge, flow: u32, d: Edge)
    requires e.src < |r| && e.dst < |r| && flow <= Weight(r, e)
    requires e != Rev(e) ==> Weight(r, e) + Weight(r, Rev(e)) < TWO_TO_THE_32
    ensures Weight(Push(r, e, flow), d) ==
            if e == Rev(e) then Weight(r, d)
            else if d == e then Weight(r, d) - flow
            else if d == Rev(e) then Weight(r, d) + flow
            else Weight(r, d)
  {
    var r1 := SetWeight(r, e, Sub32(Weight(r, e), flow));
    WeightAfterSet(r, e, Sub32(Weight(r, e), flow), d);
    WeightAfterSet(r, e, Sub32(Weight(r, e), flow), Rev(e));
    WeightAfterSet(r1, Rev(e), Add32(Weight(r1, Rev(e)), flow), d);
  }

  lemma PushBalanced(g: IdxGraph, r: IdxGraph, e: Edge, flow: u32)
    requires PairsFit(g) && Balanced(g, r)
    requires e.src < |r| && e.dst < |r| && flow <= Weight(r, e)
    ensures Balanced(g, Push(r, e, flow))
  {
    assert Weight(r, e) + Weight(r, Rev(e)) == Weight(g, e) + Weight(g, Rev(e));
    forall d: Edge
      ensures Weight(Push(r, e, flow), d) + Weight(Push(r, e, flow), Rev(d)) == Weight(g, d) + Weight(g, Rev(d))
    {
      assert Weight(r, d) + Weight(r, Rev(d)) == Weight(g, d) + Weight(g, Rev(d));
      ExactPush(r, e, flow, d);
      ExactPush(r, e, flow, Rev(d));
    }
  }

  /** A push moves weight into or out of a cut only when its edge crosses the cut. */
  lemma PushAcross(g: IdxGraph, r: IdxGraph, e: Edge, flow: u32, inside: set<nat>)
    requires PairsFit(g) && Balanced(g, r)
    requires e.src < |r| && e.dst < |r| && flow <= Weight(r, e)
    ensures CutWeight(Push(r, e, flow), inside) == CutWeight(r, inside)
              - (if e.src in inside && e.dst !in inside then flow else 0)
              + (if e.dst in inside && e.src !in inside then flow else 0)
  {
    var r', pairs := Push(r, e, flow), Leaving(AllPairs(|r|), inside);
    assert Weight(r, e) + Weight(r, Rev(e)) == Weight(g, e) + Weight(g, Rev(e));
    var d := if e in pairs then e else Rev(e);
    assert e in pairs <==> e.src in inside && e.dst !in inside;
    assert Rev(e) in pairs <==> e.dst in inside && e.src !in inside;
    forall c | c in pairs && c != d
      ensures Weight(r', c) == Weight(r, c)
    {
      ExactPush(r, e, flow, c);
    }
    ExactPush(r, e, flow, d);
    SumChange(r, r', pairs, d);
  }

  ghost predicate EdgeSimple(p: seq<nat>) {
    forall i, j :: 0 <= i < j < |p| - 1 ==> Hop(p, i) != Hop(p, j)
  }

  /** The walk can carry `flow` on each of its edges from the m-th on. */
  ghost predicate Carries(r: IdxGraph, p: seq<nat>, flow: u32, m: nat) {
    forall i :: m <= i < |p| - 1 ==> flow <= Weight(r, Hop(p, i))
  }

  lemma {:induction false} PushedExactly(g: IdxGraph, r: IdxGraph, p: seq<nat>, flow: u32, m: nat)
    requires PairsFit(g) && Balanced(g, r) && m < |p| && OnNodes(|r|, p)
    requires EdgeSimple(p) && Carries(r, p, flow, 0)
    ensures Balanced(g, Pushed(r, p, flow, m)) && Carries(Pushed(r, p, flow, m), p, flow, m)
  {
    if m > 0 {
      PushedExactly(g, r, p, flow, m - 1);
      var before, e := Pushed(r, p, flow, m - 1), Hop(p, m - 1);
      assert Weight(before, e) + Weight(before, Rev(e)) == Weight(g, e) + Weight(g, Rev(e));
      assert flow <= Weight(before, e);
      PushBalanced(g, before, e, flow);
      forall i | m <= i < |p| - 1
        ensures flow <= Weight(Pushed(r, p, flow, m), Hop(p, i))
      {
        assert Hop(p, m - 1) != Hop(p, i);
        assert flow <= Weight(before, Hop(p, i));
        ExactPush(before, e, flow, Hop(p, i));
      }
    }
  }

  /** Along a walk out of `inside`, the pushes across the cut cancel but for one. */
  lemma {:induction false} PushedAcross(g: IdxGraph, r: IdxGraph, p: seq<nat>, flow: u32, m: nat, inside: set<nat>)
    requires PairsFit(g) && Balanced(g, r) && m < |p| && OnNodes(|r|, p)
    requires EdgeSimple(p) && Carries(r, p, flow, 0) && p[0] in inside
    ensures CutWeight(Pushed(r, p, flow, m), inside) == CutWeight(r, inside) - if p[m] in inside then 0 else flow
  {
    if m > 0 {
      var before, e := Pushed(r, p, flow, m - 1), Hop(p, m - 1);
      assert Balanced(g, before) && flow <= Weight(before, e) by {
        PushedExactly(g, r, p, flow, m - 1);
      }
      PushedAcross(g, r, p, flow, m - 1, inside);
      PushAcross(g, before, e, flow, inside);
      assert Pushed(r, p, flow, m) == Push(before, e, flow);
    }
  }

  /** What `total` units of flow from `sources` to `sinks` leave of every cut between them. */
  ghost predicate Flowed(g: IdxGraph, r: IdxGraph, sources: set<nat>, sinks: set<nat>, total: nat) {
    forall inside {:trigger CutWeight(r, inside)} :: sources <= inside && inside !! sinks ==>
      CutWeight(r, inside) + total == CutWeight(g, inside)
  }

  lemma AugmentFlowed(g: IdxGraph, r: IdxGraph, sources: set<nat>, sinks: set<nat>, total: nat, p: seq<nat>, flow: u32)
    requires PairsFit(g) && Balanced(g, r) && Flowed(g, r, sources, sinks, total)
    requires |p| >= 1 && OnNodes(|r|, p) && EdgeSimple(p) && Carries(r, p, flow, 0)
    requires p[0] in sources && p[|p| - 1] in sinks
    ensures Balanced(g, Pushed(r, p, flow, |p| - 1))
    ensures Flowed(g, Pushed(r, p, flow, |p| - 1), sources, sinks, total + flow)
  {
    var r' := Pushed(r, p, flow, |p| - 1);
    PushedExactly(g, r, p, flow, |p| - 1);
    forall inside {:trigger CutWeight(r', inside)} | sources <= inside && inside !! sinks
      ensures CutWeight(r', inside) + total + flow == CutWeight(g, inside)
    {
      PushedAcross(g, r, p, flow, |p| - 1, inside);
      assert CutWeight(r, inside) + total == CutWeight(g, inside);
    }
  }

  /** When nothing of the cut is left, no other cut between sources and sinks weighs less. */
  lemma SaturatedCutIsMinimal(g: IdxGraph, r: IdxGraph, sources: set<nat>, sinks: set<nat>, total: nat,
                              inside: set<nat>, other: set<nat>)
    requires |r| == |g| && WellFormed(r) && Flowed(g, r, sources, sinks, total)
    requires sources <= inside && inside !! sinks && Leaving(Edges(r), inside) == {}
    requires sources <= other && other !! sinks
    ensures CutWeight(g, inside) <= CutWeight(g, other)
  {
    CutWeightOfEdges(r, inside);
    assert CutWeight(r, inside) + total == CutWeight(g, inside);
    assert CutWeight(r, other) + total == CutWeight(g, other);
  }
}
