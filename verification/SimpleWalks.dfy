/**
 * When an augmenting walk uses no edge twice. It cannot if every waypoint set between the first and the
 * last has at most one node; it can, in the very first augmentation, if one of them has two.
 */
module SimpleWalks {
  import opened Graphs
  import opened Waypoints
  import opened Search
  import opened LevelGraphs
  import opened Lifting
  import opened Climbing
  import opened Residual

  /** Every set between the first and the last has at most one node. With two sets there is none between. */
  predicate SingletonMiddles(W: Waypoints) {
    forall j :: 1 <= j < |W| - 1 ==> |W[j]| <= 1
  }

  lemma AtMostOne<T>(s: set<T>, x: T, y: T)
    requires |s| <= 1 && x in s && y in s
    ensures x == y
  {
    assert |s - {x}| == |s| - 1;
    assert x != y ==> y in s - {x};
  }

  lemma SameLifted(n: nat, s: set<nat>, l: nat, x: nat, y: nat)
    requires n > 0 && |s| <= 1 && Level(n, x) == l == Level(n, y) && Base(n, x) in s && Base(n, y) in s
    ensures x == y
  {
    AtMostOne(s, Base(n, x), Base(n, y));
    LiftEncodes(n, x);
    LiftEncodes(n, y);
  }

  /** A leg out of a single node of level j does not fall below level j: it would have to come back through that node. */
  lemma {:induction false} LegStaysAbove(n: nat, W: Waypoints, E: set<Edge>, stage: set<nat>, path: seq<nat>, a: nat, b: nat,
                                         j: nat, i: nat)
    requires n > 0 && AllClimb(n, W, E) && IsWalk(E, path) && IsLeg(stage, path, a, b)
    requires j < |W| && (j == 0 || |W[j]| <= 1)
    requires Level(n, path[a]) == j && Base(n, path[a]) in W[j]
    requires Level(n, path[b]) == j + 1 && a <= i <= b
    ensures Level(n, path[i]) >= j
    decreases b - i
  {
    if i < b {
      LegStaysAbove(n, W, E, stage, path, a, b, j, i + 1);
      assert Hop(path, i) in E;
      assert i + 1 < b ==> path[i + 1] !in stage;
      if Level(n, path[i]) < j {
        SameLifted(n, W[j], j, path[i + 1], path[a]);
      }
    }
  }

  /** A leg into a single node of level j+1 does not rise above level j before its end. */
  lemma {:induction false} LegStaysBelow(n: nat, W: Waypoints, E: set<Edge>, stage: set<nat>, path: seq<nat>, a: nat, b: nat,
                                         j: nat, i: nat)
    requires n > 0 && AllClimb(n, W, E) && IsWalk(E, path) && IsLeg(stage, path, a, b)
    requires j + 1 < |W| && |W[j + 1]| <= 1
    requires Level(n, path[a]) == j && Level(n, path[b]) == j + 1 && Base(n, path[b]) in W[j + 1]
    requires a <= i < b
    ensures Level(n, path[i]) <= j
    decreases i
  {
    if i > a {
      LegStaysBelow(n, W, E, stage, path, a, b, j, i - 1);
      assert Hop(path, i - 1) in E;
      if Level(n, path[i]) > j {
        SameLifted(n, W[j + 1], j + 1, path[i], path[b]);
      }
    }
  }

  /** The ends of leg j are in the waypoint sets of levels j and j+1. */
  lemma LegEnds(n: nat, W: Waypoints, E: set<Edge>, path: seq<nat>, pos: seq<nat>, j: nat)
    requires n > 0 && j + 1 < |W| && forall j, v :: 0 <= j < |W| && v in W[j] ==> v < n
    requires StagedWalk(E, LiftWaypoints(n, W), 0, path, pos)
    ensures IsLeg(Stage(E, LiftWaypoints(n, W), j), path, pos[j], pos[j + 1])
    ensures Level(n, path[pos[j]]) == j && Base(n, path[pos[j]]) in W[j]
    ensures Level(n, path[pos[j + 1]]) == j + 1 && Base(n, path[pos[j + 1]]) in W[j + 1]
  {
    var L := LiftWaypoints(n, W);
    assert IsLeg(Stage(E, L, 0 + j), path, pos[j], pos[j + 1]);
    assert path[pos[j]] in L[j];
    LiftSetDecodes(n, W[j], j, path[pos[j]]);
    if j + 2 < |W| {
      assert IsLeg(Stage(E, L, 0 + (j + 1)), path, pos[j + 1], pos[j + 1 + 1]);
    }
    assert path[pos[j + 1]] in Stage(E, L, j + 1);
    LiftSetDecodes(n, W[j + 1], j + 1, path[pos[j + 1]]);
  }

  /** The leg that the edge at position i belongs to. */
  lemma LegOf(pos: seq<nat>, i: nat) returns (j: nat)
    requires |pos| >= 2 && pos[0] == 0 && i < pos[|pos| - 1]
    ensures j + 1 < |pos| && pos[j] <= i < pos[j + 1]
  {
    j := 0;
    while pos[j + 1] <= i
      invariant j + 1 < |pos| && pos[j] <= i
      decreases |pos| - j
    {
      j := j + 1;
    }
  }

  lemma LaterLeg(E: set<Edge>, W: Waypoints, path: seq<nat>, pos: seq<nat>, i: nat, j: nat, i': nat, j': nat)
    requires |W| >= 1 && StagedWalk(E, W, 0, path, pos)
    requires j + 1 < |pos| && j' + 1 < |pos| && i <= i'
    requires pos[j] <= i < pos[j + 1] && pos[j'] <= i' < pos[j' + 1]
    ensures j <= j'
  {
    if j' + 1 < j {
      LegsAreOrdered(E, W, path, pos, j' + 1, j);
    }
  }

  lemma HopsDiffer(n: nat, W: Waypoints, E: set<Edge>, path: seq<nat>, pos: seq<nat>, i: nat, i': nat)
    requires n > 0 && |W| >= 2 && AllClimb(n, W, E) && SingletonMiddles(W)
    requires forall j, v :: 0 <= j < |W| && v in W[j] ==> v < n
    requires StagedWalk(E, LiftWaypoints(n, W), 0, path, pos)
    requires i < i' < |path| - 1
    ensures Hop(path, i) != Hop(path, i')
  {
    var L := LiftWaypoints(n, W);
    var j := LegOf(pos, i);
    var j' := LegOf(pos, i');
    LaterLeg(E, L, path, pos, i, j, i', j');
    LegEnds(n, W, E, path, pos, j);
    LegEnds(n, W, E, path, pos, j');
    if j == j' {
      assert path[i + 1] != path[i' + 1];
    } else {
      LegStaysBelow(n, W, E, Stage(E, L, j), path, pos[j], pos[j + 1], j, i);
      LegStaysAbove(n, W, E, Stage(E, L, j'), path, pos[j'], pos[j' + 1], j', i');
    }
  }

  /** With at most one node in each middle set, the joined walk uses no edge twice. */
  lemma SingletonMiddlesAreSimple(n: nat, W: Waypoints, E: set<Edge>, path: seq<nat>, pos: seq<nat>)
    requires n > 0 && |W| >= 2 && AllClimb(n, W, E) && SingletonMiddles(W)
    requires forall j, v :: 0 <= j < |W| && v in W[j] ==> v < n
    requires StagedWalk(E, LiftWaypoints(n, W), 0, path, pos)
    ensures EdgeSimple(path)
  {
    forall i, i' | 0 <= i < i' < |path| - 1
      ensures Hop(path, i) != Hop(path, i')
    {
      HopsDiffer(n, W, E, path, pos, i, i');
    }
  }
}
