/**
 * Walks that climb one level at a time, and only into the waypoint set of the level they enter. On such
 * walks the staged search and plain reachability agree.
 */
module Climbing {
  import opened Graphs
  import opened Waypoints
  import opened LevelGraphs
  import opened Lifting

  /** The edge climbs at most one level, and then into the waypoint set of that level. */
  ghost predicate Climbs(n: nat, W: Waypoints, e: Edge)
    requires n > 0
  {
    var from, to := Level(n, e.src), Level(n, e.dst);
    to <= from || (to == from + 1 && to < |W| && Base(n, e.dst) in W[to])
  }

  ghost predicate AllClimb(n: nat, W: Waypoints, E: set<Edge>)
    requires n > 0
  {
    forall e :: e in E ==> Climbs(n, W, e)
  }

  lemma LiftingClimbs(g: IdxGraph, W: Waypoints, lifted: IdxGraph, e: Edge)
    requires |g| > 0 && IsLifting(g, W, lifted) && e in Edges(lifted)
    ensures Climbs(|g|, W, e) && Level(|g|, e.src) <= Level(|g|, e.dst)
    ensures e.src < |lifted| && e.dst < |lifted| && Level(|g|, e.dst) < |W|
    ensures BaseEdge(|g|, e) in Edges(g) && Weight(lifted, e) == Weight(g, BaseEdge(|g|, e))
  {
    EdgesAreWeighted(lifted, e);
    assert Weight(lifted, e) == LiftedWeight(g, W, e) > 0;
    assert Weight(g, BaseEdge(|g|, e)) > 0;
  }

  /** From a position in level j-1 to the first later position in level j, which is in W[j]. */
  lemma ClimbOne(n: nat, W: Waypoints, E: set<Edge>, p: seq<nat>, i: nat, j: nat) returns (i': nat)
    requires n > 0 && AllClimb(n, W, E) && IsWalk(E, p) && i < |p|
    requires j > 0 && Level(n, p[i]) == j - 1 && Level(n, p[|p| - 1]) >= j
    ensures i < i' < |p| && Level(n, p[i']) == j && j < |W| && Base(n, p[i']) in W[j]
    ensures forall m :: i <= m < i' ==> Level(n, p[m]) < j
  {
    i' := i;
    while Level(n, p[i']) < j
      invariant i <= i' < |p| && Level(n, p[i']) <= j
      invariant i' > i && Level(n, p[i']) == j ==> j < |W| && Base(n, p[i']) in W[j]
      invariant forall m :: i <= m < i' ==> Level(n, p[m]) < j
      decreases |p| - i'
    {
      assert i' + 1 < |p|;
      assert Hop(p, i') in E;
      i' := i' + 1;
    }
  }

  /** A walk from W[0] in level 0 into level j visits W[0], ..., W[j] in their levels. */
  lemma {:induction false} ClimbVisits(n: nat, W: Waypoints, E: set<Edge>, p: seq<nat>, j: nat) returns (pos: seq<nat>)
    requires n > 0 && AllClimb(n, W, E) && IsWalk(E, p) && j < |W|
    requires p[0] in LiftSet(n, W[0], 0) && Level(n, p[0]) == 0 && Level(n, p[|p| - 1]) >= j
    ensures VisitsInOrder(p, LiftWaypoints(n, W)[..j + 1], pos) && Level(n, p[pos[j]]) == j
  {
    var L: Waypoints := LiftWaypoints(n, W);
    if j == 0 {
      pos := [0];
    } else {
      var before := ClimbVisits(n, W, E, p, j - 1);
      assert p[before[j - 1]] in L[..j][j - 1];
      var i := ClimbOne(n, W, E, p, before[j - 1], j);
      LiftEncodes(n, p[i]);
      pos := before + [i];
      assert p[i] in LiftSet(n, W[j], j);
      forall m | 0 <= m < j + 1
        ensures pos[m] < |p| && p[pos[m]] in L[..j + 1][m]
      {
        if m < j {
          assert p[before[m]] in L[..j][m];
        }
      }
      forall m, m' | 0 <= m < m' < j + 1
        ensures pos[m] < pos[m']
      {
        if m' == j && m < j - 1 {
          assert before[m] < before[j - 1];
        }
      }
    }
  }

  /** The walk of base nodes below a lifted walk. */
  function BaseWalk(n: nat, p: seq<nat>): (r: seq<nat>)
    requires n > 0
    ensures |r| == |p|
  {
    seq(|p|, i requires 0 <= i < |p| => Base(n, p[i]))
  }

  lemma BaseWalkVisits(n: nat, W: Waypoints, E: set<Edge>, F: set<Edge>, p: seq<nat>, pos: seq<nat>)
    requires n > 0 && forall j, v :: 0 <= j < |W| && v in W[j] ==> v < n
    requires IsWalk(E, p) && VisitsInOrder(p, LiftWaypoints(n, W), pos)
    requires forall e :: e in E ==> BaseEdge(n, e) in F
    ensures IsWalk(F, BaseWalk(n, p)) && VisitsInOrder(BaseWalk(n, p), W, pos)
  {
    var q := BaseWalk(n, p);
    forall i | 0 <= i < |q| - 1
      ensures Hop(q, i) in F
    {
      assert Hop(p, i) in E && Hop(q, i) == BaseEdge(n, Hop(p, i));
    }
    forall j | 0 <= j < |W|
      ensures pos[j] < |q| && q[pos[j]] in W[j]
    {
      assert p[pos[j]] in LiftWaypoints(n, W)[j];
      LiftSetDecodes(n, W[j], j, p[pos[j]]);
    }
  }

  /** Whoever gets to the last level has visited all the sets. */
  lemma TopLevelIsStaged(n: nat, W: Waypoints, E: set<Edge>, t: nat)
    requires n > 0 && |W| >= 1 && AllClimb(n, W, E)
    requires forall j, v :: 0 <= j < |W| && v in W[j] ==> v < n
    requires Level(n, t) >= |W| - 1 && PosReach(E, LiftSet(n, W[0], 0), t)
    ensures !Separated(E, LiftWaypoints(n, W))
  {
    var L, k := LiftWaypoints(n, W), |W| - 1;
    var p :| IsWalk(E, p) && |p| >= 2 && p[0] in LiftSet(n, W[0], 0) && p[|p| - 1] == t;
    LiftSetDecodes(n, W[0], 0, p[0]);
    var pos := ClimbVisits(n, W, E, p, k);
    assert L[..k + 1] == L;
    assert Admits(p, L);
  }

  lemma StagedIsReached(E: set<Edge>, L: Waypoints) returns (t: nat)
    requires |L| >= 2 && !Separated(E, L)
    ensures t in L[|L| - 1] && PosReach(E, L[0], t)
  {
    var k := |L| - 1;
    var p :| IsWalk(E, p) && Admits(p, L);
    var pos :| VisitsInOrder(p, L, pos);
    assert p[pos[0]] in L[0] && p[pos[k]] in L[k] && pos[0] < pos[k];
    var leg := p[pos[0]..pos[k] + 1];
    SliceOfWalk(E, p, pos[0], pos[k] + 1);
    t := p[pos[k]];
  }

  /** The staged search finds a walk exactly when the last set is plainly reachable from the first. */
  lemma StagedIsPlain(n: nat, W: Waypoints, E: set<Edge>)
    requires n > 0 && |W| >= 2 && AllClimb(n, W, E)
    requires forall j, v :: 0 <= j < |W| && v in W[j] ==> v < n
    ensures !Separated(E, LiftWaypoints(n, W)) <==>
            exists t :: t in LiftSet(n, W[|W| - 1], |W| - 1) && PosReach(E, LiftSet(n, W[0], 0), t)
  {
    var k := |W| - 1;
    if t :| t in LiftSet(n, W[k], k) && PosReach(E, LiftSet(n, W[0], 0), t) {
      LiftSetDecodes(n, W[k], k, t);
      TopLevelIsStaged(n, W, E, t);
    }
    if !Separated(E, LiftWaypoints(n, W)) {
      var t := StagedIsReached(E, LiftWaypoints(n, W));
      assert t in LiftSet(n, W[k], k) && PosReach(E, LiftSet(n, W[0], 0), t);
    }
  }
}
