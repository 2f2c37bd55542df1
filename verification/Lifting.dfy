/**
 * The lifted graph. The edges of the k copies that enter W[i] from level i-1 are diverted to level i,
 * so that a walk climbs exactly when it gets to the set it has to visit next.
 */
module Lifting {
  import opened Graphs
  import opened Waypoints
  import opened ScopedGraphs
  import opened LevelGraphs

  /** The level that an edge into `v` leads to from level `l`. */
  function NextLevel(W: Waypoints, l: nat, v: nat): nat {
    if l + 1 < |W| && v in W[l + 1] then l + 1 else l
  }

  function BaseEdge(n: nat, e: Edge): Edge
    requires n > 0
  {
    Edge(Base(n, e.src), Base(n, e.dst))
  }

  function LiftedWeight(g: IdxGraph, W: Waypoints, e: Edge): u32
    requires |g| > 0
  {
    var l := Level(|g|, e.src);
    if l < |W| && Level(|g|, e.dst) == NextLevel(W, l, Base(|g|, e.dst)) then Weight(g, BaseEdge(|g|, e)) else 0
  }

  ghost predicate IsLifting(g: IdxGraph, W: Waypoints, lifted: IdxGraph)
    requires |g| > 0
  {
    && |lifted| == Lift(|g|, 0, |W|)
    && WellFormed(lifted)
    && forall e :: Weight(lifted, e) == LiftedWeight(g, W, e)
  }

  /** The nodes of `s` in level `l`. */
  function LiftSet(n: nat, s: set<nat>, l: nat): (r: set<nat>)
    ensures forall v :: v in s ==> Lift(n, v, l) in r
  {
    set v | v in s :: Lift(n, v, l)
  }

  function LiftWaypoints(n: nat, W: Waypoints): (r: Waypoints)
    ensures |r| == |W|
  {
    seq(|W|, j requires 0 <= j < |W| => LiftSet(n, W[j], j))
  }

  lemma LiftSetDecodes(n: nat, s: set<nat>, l: nat, x: nat)
    requires n > 0 && forall v :: v in s ==> v < n
    ensures x in LiftSet(n, s, l) <==> Level(n, x) == l && Base(n, x) in s
  {
    if x in LiftSet(n, s, l) {
      var v :| v in s && Lift(n, v, l) == x;
      LiftDecodes(n, v, l);
    }
    LiftEncodes(n, x);
  }

  lemma LiftedWaypointsAreNodes(g: IdxGraph, W: Waypoints, lifted: IdxGraph)
    requires |g| > 0 && WaypointsOf(g, W) && |lifted| == Lift(|g|, 0, |W|)
    ensures WaypointsOf(lifted, LiftWaypoints(|g|, W))
  {
    forall j, x | 0 <= j < |W| && x in LiftWaypoints(|g|, W)[j]
      ensures x < |lifted|
    {
      LiftSetDecodes(|g|, W[j], j, x);
      LevelBound(|g|, x, |W|);
    }
  }

  // ---------------------------------------------------------------------------------
  // Building the lifted graph, edge after edge, by writes to a scoped copy of the level graph

  /** Whether the edge was reached already when level i-1 is done up to node u and its successors `done`. */
  predicate Diverted(n: nat, W: Waypoints, i: nat, u: nat, done: set<nat>, e: Edge)
    requires n > 0
  {
    var l, b, v := Level(n, e.src), Base(n, e.src), Base(n, e.dst);
    l + 1 < |W| && v in W[l + 1] && (l + 1 < i || (l + 1 == i && (b < u || (b == u && v in done))))
  }

  function PartialWeight(g: IdxGraph, W: Waypoints, i: nat, u: nat, done: set<nat>, e: Edge): u32
    requires |g| > 0
  {
    var l := Level(|g|, e.src);
    if l < |W| && Level(|g|, e.dst) == (if Diverted(|g|, W, i, u, done, e) then l + 1 else l)
    then Weight(g, BaseEdge(|g|, e)) else 0
  }

  ghost predicate PartlyLifted(g: IdxGraph, W: Waypoints, i: nat, u: nat, done: set<nat>, m: IdxGraph)
    requires |g| > 0
  {
    && |m| == Lift(|g|, 0, |W|)
    && WellFormed(m)
    && forall e :: Weight(m, e) == PartialWeight(g, W, i, u, done, e)
  }

  lemma CopiesArePartlyLifted(g: IdxGraph, W: Waypoints)
    requires |g| > 0 && WellFormed(g)
    ensures PartlyLifted(g, W, 0, 0, {}, DupGraph(g, |W|).Rows())
  {
    var dup := DupGraph(g, |W|);
    var m := dup.Rows();
    LiftIsArithmetic(|g|, 0, |W|);
    forall e: Edge
      ensures Weight(m, e) == PartialWeight(g, W, 0, 0, {}, e)
    {
      LevelBound(|g|, e.src, |W|);
      if e.src < |m| {
        assert m[e.src] == dup.Row(e.src);
      }
    }
    forall x, y | 0 <= x < |m| && y in m[x]
      ensures y < |m| && m[x][y] > 0
    {
      assert m[x] == dup.Row(x);
      LevelBound(|g|, x, |W|);
      LevelBound(|g|, y, |W|);
    }
  }

  /** After the two writes for the edge (u, v) into W[i], every edge has the weight of the next state. */
  lemma DivertedWeight(g: IdxGraph, W: Waypoints, i: nat, u: nat, done: set<nat>, v: nat, m: IdxGraph, e: Edge)
    requires WellFormed(g) && 0 < i < |W| && u < |g| && v in g[u] && v in W[i]
    requires Weight(m, e) == PartialWeight(g, W, i, u, done, e)
    requires Lift(|g|, u, i - 1) < |m|
    ensures var up, same := Edge(Lift(|g|, u, i - 1), Lift(|g|, v, i)), Edge(Lift(|g|, u, i - 1), Lift(|g|, v, i - 1));
            Weight(SetWeight(SetWeight(m, up, g[u][v]), same, 0), e) == PartialWeight(g, W, i, u, done + {v}, e)
  {
    var n := |g|;
    var up, same := Edge(Lift(n, u, i - 1), Lift(n, v, i)), Edge(Lift(n, u, i - 1), Lift(n, v, i - 1));
    WeightAfterSet(m, up, g[u][v], e);
    WeightAfterSet(SetWeight(m, up, g[u][v]), same, 0, e);
    LiftDecodes(n, u, i - 1);
    LiftDecodes(n, v, i);
    LiftDecodes(n, v, i - 1);
    LiftEncodes(n, e.src);
    LiftEncodes(n, e.dst);
    if Level(n, e.src) == i - 1 && Base(n, e.src) == u && Base(n, e.dst) == v {
      assert e.src == up.src;
      assert Diverted(n, W, i, u, done + {v}, e);
    } else {
      assert e != up && e != same;
      assert Diverted(n, W, i, u, done + {v}, e) == Diverted(n, W, i, u, done, e);
    }
  }

  /** The two writes for one edge into W[i]. */
  lemma DivertOne(g: IdxGraph, W: Waypoints, i: nat, u: nat, done: set<nat>, v: nat, m: IdxGraph)
    requires WellFormed(g) && 0 < i < |W| && u < |g| && v in g[u] && v in W[i]
    requires PartlyLifted(g, W, i, u, done, m)
    ensures var up, same := Edge(Lift(|g|, u, i - 1), Lift(|g|, v, i)), Edge(Lift(|g|, u, i - 1), Lift(|g|, v, i - 1));
            && up.src < |m|
            && PartlyLifted(g, W, i, u, done + {v}, SetWeight(SetWeight(m, up, g[u][v]), same, 0))
  {
    var n := |g|;
    var up, same := Edge(Lift(n, u, i - 1), Lift(n, v, i)), Edge(Lift(n, u, i - 1), Lift(n, v, i - 1));
    LiftDecodes(n, u, i - 1);
    LiftDecodes(n, v, i);
    LiftDecodes(n, v, i - 1);
    LevelBound(n, up.src, |W|);
    LevelBound(n, up.dst, |W|);
    LevelBound(n, same.dst, |W|);
    SetKeepsWellFormed(m, up, g[u][v]);
    SetKeepsWellFormed(SetWeight(m, up, g[u][v]), same, 0);
    forall e: Edge
      ensures Weight(SetWeight(SetWeight(m, up, g[u][v]), same, 0), e) == PartialWeight(g, W, i, u, done + {v}, e)
    {
      DivertedWeight(g, W, i, u, done, v, m, e);
    }
  }

  lemma RowDone(g: IdxGraph, W: Waypoints, i: nat, u: nat, done: set<nat>, m: IdxGraph)
    requires WellFormed(g) && u < |g| && PartlyLifted(g, W, i, u, done, m)
    requires forall v :: v in g[u] && i < |W| && v in W[i] ==> v in done
    ensures PartlyLifted(g, W, i, u + 1, {}, m)
  {
  }

  lemma LevelDone(g: IdxGraph, W: Waypoints, i: nat, m: IdxGraph)
    requires |g| > 0
    requires PartlyLifted(g, W, i, |g|, {}, m)
    ensures PartlyLifted(g, W, i + 1, 0, {}, m)
  {
  }

  lemma AllDone(g: IdxGraph, W: Waypoints, m: IdxGraph)
    requires |g| > 0 && PartlyLifted(g, W, |W|, 0, {}, m)
    ensures IsLifting(g, W, m)
  {
    forall e: Edge
      ensures Weight(m, e) == LiftedWeight(g, W, e)
    {
      assert Weight(m, e) == PartialWeight(g, W, |W|, 0, {}, e);
    }
  }

  /** Diverts the edges of node `u` that enter W[i] from level i-1. */
  method DivertRow(g: IdxGraph, W: Waypoints, i: nat, u: nat, modG: ScopedGraph)
    requires WellFormed(g) && 0 < i < |W| && u < |g|
    requires PartlyLifted(g, W, i, u, {}, modG.Rows())
    modifies modG
    ensures PartlyLifted(g, W, i, u + 1, {}, modG.Rows())
  {
    var dup := DupGraph(g, |W|);
    ghost var done: set<nat> := {};
    var row := g[u].Keys;
    while row != {}
      invariant row <= g[u].Keys && done == g[u].Keys - row
      invariant PartlyLifted(g, W, i, u, done * W[i], modG.Rows())
    {
      var v :| v in row;
      row := row - {v};
      if v in W[i] {
        DivertOne(g, W, i, u, done * W[i], v, modG.Rows());
        // Add the edge one level up and delete the one in the same level.
        modG.PutWeight(dup.GetNodeForLevel(u, i - 1), dup.GetNodeForLevel(v, i), g[u][v]);
        modG.PutWeight(dup.GetNodeForLevel(u, i - 1), dup.GetNodeForLevel(v, i - 1), 0);
      }
      done := done + {v};
      assert v in W[i] ==> done * W[i] == (done - {v}) * W[i] + {v};
      assert v !in W[i] ==> done * W[i] == (done - {v}) * W[i];
      assert (done - {v}) == g[u].Keys - row - {v};
    }
    RowDone(g, W, i, u, done * W[i], modG.Rows());
  }

  method BuildLifting(g: IdxGraph, W: Waypoints) returns (modG: ScopedGraph, waypoints: Waypoints)
    requires |g| > 0 && WellFormed(g) && WaypointsOf(g, W)
    ensures fresh(modG) && IsLifting(g, W, modG.Rows())
    ensures waypoints == LiftWaypoints(|g|, W)
  {
    modG := new ScopedGraph(DupGraph(g, |W|).Rows());
    CopiesArePartlyLifted(g, W);
    waypoints := [];
    var i := 0;
    while i < |W|
      invariant 0 <= i <= |W| && fresh(modG)
      invariant waypoints == LiftWaypoints(|g|, W)[..i]
      invariant PartlyLifted(g, W, i, 0, {}, modG.Rows())
    {
      waypoints := waypoints + [LiftSet(|g|, W[i], i)];
      if i > 0 {
        for u := 0 to |g|
          invariant fresh(modG)
          invariant PartlyLifted(g, W, i, u, {}, modG.Rows())
        {
          DivertRow(g, W, i, u, modG);
        }
      } else {
        NothingEntersLevelZero(g, W, modG.Rows());
      }
      LevelDone(g, W, i, modG.Rows());
      i := i + 1;
    }
    AllDone(g, W, modG.Rows());
  }

  lemma NothingEntersLevelZero(g: IdxGraph, W: Waypoints, m: IdxGraph)
    requires |g| > 0 && PartlyLifted(g, W, 0, 0, {}, m)
    ensures PartlyLifted(g, W, 0, |g|, {}, m)
  {
  }

  // ---------------------------------------------------------------------------------
  // A cut of the lifted graph, projected, separates the waypoints

  /** The level that the lifting of the walk, started at position s, is in at position i. */
  function LevelAt(W: Waypoints, p: seq<nat>, s: nat, i: nat): nat
    requires s <= i < |p|
    decreases i
  {
    if i == s then 0 else NextLevel(W, LevelAt(W, p, s, i - 1), p[i])
  }

  lemma {:induction false} LevelGrows(W: Waypoints, p: seq<nat>, s: nat, i: nat, i': nat)
    requires |W| >= 1 && s <= i <= i' < |p|
    ensures LevelAt(W, p, s, i) <= LevelAt(W, p, s, i') < |W|
    decreases i'
  {
    if i < i' {
      LevelGrows(W, p, s, i, i' - 1);
    } else if s < i {
      LevelGrows(W, p, s, i - 1, i - 1);
    }
  }

  /** A walk that has visited W[0..j] is in level j or above. */
  lemma {:induction false} VisitsClimb(W: Waypoints, p: seq<nat>, pos: seq<nat>, j: nat)
    requires VisitsInOrder(p, W, pos) && j < |W|
    ensures pos[0] <= pos[j] && LevelAt(W, p, pos[0], pos[j]) >= j
  {
    if j > 0 {
      VisitsClimb(W, p, pos, j - 1);
      LevelGrows(W, p, pos[0], pos[j - 1], pos[j] - 1);
    }
  }

  /** The lifting of a base edge that starts in level l. */
  lemma LiftedEdge(g: IdxGraph, W: Waypoints, lifted: IdxGraph, e: Edge, l: nat)
    requires WellFormed(g) && e in Edges(g) && l < |W| && IsLifting(g, W, lifted)
    ensures var up := Edge(Lift(|g|, e.src, l), Lift(|g|, e.dst, NextLevel(W, l, e.dst)));
            up in Edges(lifted) && BaseEdge(|g|, up) == e
  {
    var up := Edge(Lift(|g|, e.src, l), Lift(|g|, e.dst, NextLevel(W, l, e.dst)));
    LiftDecodes(|g|, e.src, l);
    LiftDecodes(|g|, e.dst, NextLevel(W, l, e.dst));
    EdgesAreWeighted(g, e);
    EdgesAreWeighted(lifted, up);
  }

  /** The edges that leave a set of nodes. */
  ghost function Leaving(E: set<Edge>, inside: set<nat>): set<Edge> {
    set e | e in E && e.src in inside && e.dst !in inside
  }

  /** A walk that avoids the projected cut keeps its lifting inside. */
  lemma {:induction false} LiftingStaysInside(g: IdxGraph, W: Waypoints, lifted: IdxGraph, inside: set<nat>, cut: set<Edge>,
                                              p: seq<nat>, s: nat, i: nat)
    requires WellFormed(g) && |g| > 0 && |W| >= 1 && IsLifting(g, W, lifted)
    requires forall e :: e in Leaving(Edges(lifted), inside) ==> BaseEdge(|g|, e) in cut
    requires IsWalk(Edges(g) - cut, p) && s <= i < |p| && Lift(|g|, p[s], 0) in inside
    ensures Lift(|g|, p[i], LevelAt(W, p, s, i)) in inside
    decreases i
  {
    if i > s {
      LiftingStaysInside(g, W, lifted, inside, cut, p, s, i - 1);
      LevelGrows(W, p, s, i - 1, i - 1);
      assert Hop(p, i - 1) in Edges(g) - cut;
      LiftedEdge(g, W, lifted, Hop(p, i - 1), LevelAt(W, p, s, i - 1));
    }
  }

  lemma ProjectedCutSeparates(g: IdxGraph, W: Waypoints, lifted: IdxGraph, inside: set<nat>, cut: set<Edge>)
    requires WellFormed(g) && |g| > 0 && |W| >= 1 && WaypointsOf(g, W) && IsLifting(g, W, lifted)
    requires LiftSet(|g|, W[0], 0) <= inside && LiftSet(|g|, W[|W| - 1], |W| - 1) !! inside
    requires forall e :: e in Leaving(Edges(lifted), inside) ==> BaseEdge(|g|, e) in cut
    ensures Separates(g, cut, W)
  {
    forall p | IsWalk(Edges(g) - cut, p)
      ensures !Admits(p, W)
    {
      if Admits(p, W) {
        var pos :| VisitsInOrder(p, W, pos);
        var k := |W| - 1;
        assert p[pos[0]] in W[0] && p[pos[k]] in W[k];
        VisitsClimb(W, p, pos, k);
        LevelGrows(W, p, pos[0], pos[k], pos[k]);
        assert Lift(|g|, p[pos[k]], LevelAt(W, p, pos[0], pos[k])) in LiftSet(|g|, W[k], k);
        LiftingStaysInside(g, W, lifted, inside, cut, p, pos[0], pos[k]);
      }
    }
  }
}
