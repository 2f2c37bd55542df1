/** How the weight of a cut of the graph compares to the weight of a cut of the lifted graph. */
module Cuts {
  import opened Graphs
  import opened Waypoints
  import opened LevelGraphs
  import opened Lifting
  import opened Climbing
  import opened Weights

  /** The base edges below the edges that leave `inside`. */
  ghost function ProjectedCut(n: nat, lifted: IdxGraph, inside: set<nat>): set<Edge>
    requires n > 0
  {
    set e | e in Leaving(Edges(lifted), inside) :: BaseEdge(n, e)
  }

  /** Projecting edges, several of which may fall together, does not add weight. */
  lemma {:induction false} ProjectionLosesWeight(g: IdxGraph, lifted: IdxGraph, E: set<Edge>, F: set<Edge>)
    requires |g| > 0
    requires forall e :: e in E ==> Weight(lifted, e) == Weight(g, BaseEdge(|g|, e))
    requires forall f :: f in F ==> exists e :: e in E && BaseEdge(|g|, e) == f
    ensures SumW(g, F) <= SumW(lifted, E)
    decreases F
  {
    if F != {} {
      var f :| f in F;
      var e :| e in E && BaseEdge(|g|, e) == f;
      SumWithout(g, F, f);
      SumWithout(lifted, E, e);
      forall f' | f' in F - {f}
        ensures exists e' :: e' in E - {e} && BaseEdge(|g|, e') == f'
      {
        var e' :| e' in E && BaseEdge(|g|, e') == f';
        assert e' in E - {e};
      }
      ProjectionLosesWeight(g, lifted, E - {e}, F - {f});
    }
  }

  /** Edges out of one level weigh no more than the base edges below them: no two of them fall together. */
  lemma {:induction false} OneLevelWeighs(g: IdxGraph, W: Waypoints, lifted: IdxGraph, l: nat, E: set<Edge>, F: set<Edge>)
    requires |g| > 0 && IsLifting(g, W, lifted) && E <= Edges(lifted)
    requires forall e :: e in E ==> Level(|g|, e.src) == l && BaseEdge(|g|, e) in F
    ensures SumW(lifted, E) <= SumW(g, F)
    decreases E
  {
    if E != {} {
      var e :| e in E;
      var f := BaseEdge(|g|, e);
      LiftingClimbs(g, W, lifted, e);
      SumWithout(lifted, E, e);
      SumWithout(g, F, f);
      forall e' | e' in E - {e}
        ensures BaseEdge(|g|, e') != f
      {
        if BaseEdge(|g|, e') == f {
          SameLevelSameBase(g, W, lifted, e, e');
        }
      }
      OneLevelWeighs(g, W, lifted, l, E - {e}, F - {f});
    }
  }

  lemma SameLevelSameBase(g: IdxGraph, W: Waypoints, lifted: IdxGraph, e: Edge, e': Edge)
    requires |g| > 0 && IsLifting(g, W, lifted) && e in Edges(lifted) && e' in Edges(lifted)
    requires Level(|g|, e.src) == Level(|g|, e'.src) && BaseEdge(|g|, e) == BaseEdge(|g|, e')
    ensures e == e'
  {
    EdgesAreWeighted(lifted, e);
    EdgesAreWeighted(lifted, e');
    assert LiftedWeight(g, W, e) > 0 && LiftedWeight(g, W, e') > 0;
    LiftEncodes(|g|, e.src);
    LiftEncodes(|g|, e'.src);
    LiftEncodes(|g|, e.dst);
    LiftEncodes(|g|, e'.dst);
  }

  ghost function AtLevel(n: nat, E: set<Edge>, l: nat): set<Edge>
    requires n > 0
  {
    set e | e in E && Level(n, e.src) == l
  }

  ghost function Times(m: nat, w: nat): nat {
    if m == 0 then 0 else Times(m - 1, w) + w
  }

  lemma {:induction false} TimesIsProduct(m: nat, w: nat)
    ensures Times(m, w) == m * w
  {
    if m > 0 {
      TimesIsProduct(m - 1, w);
    }
  }

  /** Edges out of the first m levels above F weigh at most m times what F weighs. */
  lemma {:induction false} LevelsWeigh(g: IdxGraph, W: Waypoints, lifted: IdxGraph, m: nat, E: set<Edge>, F: set<Edge>)
    requires |g| > 0 && IsLifting(g, W, lifted) && E <= Edges(lifted)
    requires forall e :: e in E ==> Level(|g|, e.src) < m && BaseEdge(|g|, e) in F
    ensures SumW(lifted, E) <= Times(m, SumW(g, F))
  {
    if m == 0 {
      assert E == {};
    } else {
      var top := AtLevel(|g|, E, m - 1);
      OneLevelWeighs(g, W, lifted, m - 1, top, F);
      LevelsWeigh(g, W, lifted, m - 1, E - top, F);
      assert SumW(lifted, E) == SumW(lifted, top) + SumW(lifted, E - top) by {
        SumUnion(lifted, top, E - top);
        assert top + (E - top) == E;
      }
    }
  }

  // ---------------------------------------------------------------------------------
  // A cut of the graph, copied to the levels, cuts the lifted graph

  /** The lifted edges that are not copies of edges of `cut`. */
  ghost function Uncut(n: nat, lifted: IdxGraph, cut: set<Edge>): set<Edge>
    requires n > 0
  {
    set e | e in Edges(lifted) && BaseEdge(n, e) !in cut
  }

  /** What can be reached in the lifted graph without crossing a copy of the cut. */
  ghost function Side(n: nat, lifted: IdxGraph, cut: set<Edge>, sources: set<nat>): set<nat>
    requires n > 0
  {
    sources + set x | x in NodesBelow(|lifted|) && PosReach(Uncut(n, lifted, cut), sources, x)
  }

  lemma SideEndsBelow(g: IdxGraph, W: Waypoints, lifted: IdxGraph, cut: set<Edge>, x: nat)
    requires |g| > 0 && |W| >= 2 && WellFormed(g) && WaypointsOf(g, W) && IsLifting(g, W, lifted)
    requires Separates(g, cut, W)
    requires x in Side(|g|, lifted, cut, LiftSet(|g|, W[0], 0))
    ensures Level(|g|, x) < |W| - 1
  {
    var n, k, E := |g|, |W| - 1, Uncut(|g|, lifted, cut);
    var sources := LiftSet(n, W[0], 0);
    if x in sources {
      LiftSetDecodes(n, W[0], 0, x);
    } else if Level(n, x) >= k {
      var p :| IsWalk(E, p) && |p| >= 2 && p[0] in sources && p[|p| - 1] == x;
      LiftSetDecodes(n, W[0], 0, p[0]);
      forall e | e in E
        ensures Climbs(n, W, e) && BaseEdge(n, e) in Edges(g) - cut
      {
        LiftingClimbs(g, W, lifted, e);
      }
      var pos := ClimbVisits(n, W, E, p, k);
      assert LiftWaypoints(n, W)[..k + 1] == LiftWaypoints(n, W);
      BaseWalkVisits(n, W, E, Edges(g) - cut, p, pos);
      assert Admits(BaseWalk(n, p), W);
      assert false;
    }
  }

  lemma SideLeavesThroughCut(g: IdxGraph, W: Waypoints, lifted: IdxGraph, cut: set<Edge>, e: Edge)
    requires |g| > 0 && |W| >= 1 && IsLifting(g, W, lifted)
    requires e in Leaving(Edges(lifted), Side(|g|, lifted, cut, LiftSet(|g|, W[0], 0)))
    ensures BaseEdge(|g|, e) in cut
  {
    var sources := LiftSet(|g|, W[0], 0);
    EdgesAreWeighted(lifted, e);
    if BaseEdge(|g|, e) !in cut {
      PosReachStep(Uncut(|g|, lifted, cut), sources, e.src, e.dst);
    }
  }

  /** Every separating cut gives a cut of the lifted graph of at most k-1 times its weight. */
  lemma LiftedCutWeighs(g: IdxGraph, W: Waypoints, lifted: IdxGraph, cut: set<Edge>) returns (side: set<nat>)
    requires |g| > 0 && |W| >= 2 && WellFormed(g) && WaypointsOf(g, W) && IsLifting(g, W, lifted)
    requires Separates(g, cut, W)
    ensures LiftSet(|g|, W[0], 0) <= side && side !! LiftSet(|g|, W[|W| - 1], |W| - 1)
    ensures CutWeight(lifted, side) <= (|W| - 1) * SumW(g, cut)
  {
    var n, k := |g|, |W| - 1;
    side := Side(n, lifted, cut, LiftSet(n, W[0], 0));
    forall x | x in side
      ensures Level(n, x) < k && x !in LiftSet(n, W[k], k)
    {
      SideEndsBelow(g, W, lifted, cut, x);
      LiftSetDecodes(n, W[k], k, x);
    }
    var E := Leaving(Edges(lifted), side);
    forall e | e in E
      ensures Level(n, e.src) < k && BaseEdge(n, e) in cut
    {
      SideLeavesThroughCut(g, W, lifted, cut, e);
    }
    LevelsWeigh(g, W, lifted, k, E, cut);
    TimesIsProduct(k, SumW(g, cut));
    CutWeightOfEdges(lifted, side);
  }

  /** What leaves the sources in level 0 weighs no more than the whole graph. */
  lemma SourceCutWeighs(g: IdxGraph, W: Waypoints, lifted: IdxGraph)
    requires |g| > 0 && |W| >= 1 && WaypointsOf(g, W) && IsLifting(g, W, lifted)
    ensures CutWeight(lifted, LiftSet(|g|, W[0], 0)) <= SumW(g, Edges(g))
  {
    var sources := LiftSet(|g|, W[0], 0);
    var E := Leaving(Edges(lifted), sources);
    forall e | e in E
      ensures Level(|g|, e.src) == 0 && BaseEdge(|g|, e) in Edges(g)
    {
      LiftSetDecodes(|g|, W[0], 0, e.src);
      LiftingClimbs(g, W, lifted, e);
    }
    OneLevelWeighs(g, W, lifted, 0, E, Edges(g));
    CutWeightOfEdges(lifted, sources);
  }
}
