/** What it means for a walk to pass through a list of waypoint sets, and for a graph to keep them apart. */
module Waypoints {
  import opened Graphs

  /** A list of at least two node sets that must not be visited one after the other. */
  type Waypoints = seq<set<nat>>

  /** The walk `p` is in W[0] at position pos[0], later in W[1] at pos[1], and so on: each leg has an edge. */
  ghost predicate VisitsInOrder(p: seq<nat>, W: Waypoints, pos: seq<nat>) {
    && |pos| == |W|
    && (forall j :: 0 <= j < |W| ==> pos[j] < |p| && p[pos[j]] in W[j])
    && (forall i, j :: 0 <= i < j < |W| ==> pos[i] < pos[j])
  }

  ghost predicate Admits(p: seq<nat>, W: Waypoints) {
    exists pos :: VisitsInOrder(p, W, pos)
  }

  /** No walk over `E` passes through all the sets of W in order. */
  ghost predicate Separated(E: set<Edge>, W: Waypoints) {
    forall p :: IsWalk(E, p) ==> !Admits(p, W)
  }

  /** The edges of `cut` break every walk of `g` through W. */
  ghost predicate Separates(g: IdxGraph, cut: set<Edge>, W: Waypoints) {
    Separated(Edges(g) - cut, W)
  }

  lemma EmptySetAdmitsNothing(W: Waypoints, j: nat, p: seq<nat>)
    requires j < |W| && W[j] == {}
    ensures !Admits(p, W)
  {
    if pos :| VisitsInOrder(p, W, pos) {
      VisitedIsInhabited(p, W, pos, j);
    }
  }

  lemma AdmittedIsWalk(p: seq<nat>, W: Waypoints)
    requires |W| >= 1 && Admits(p, W)
    ensures p != []
  {
    var pos :| VisitsInOrder(p, W, pos);
    assert pos[0] < |p|;
  }

  lemma VisitedIsInhabited(p: seq<nat>, W: Waypoints, pos: seq<nat>, j: nat)
    requires VisitsInOrder(p, W, pos) && j < |W|
    ensures W[j] != {}
  {
    assert p[pos[j]] in W[j];
  }

  ghost predicate WaypointsOf(g: IdxGraph, W: Waypoints) {
    forall j, v :: 0 <= j < |W| && v in W[j] ==> v < |g|
  }

  // ---------------------------------------------------------------------------------
  // The staged view of the same relation: what of W[j] can still be reached, set after set

  ghost function Stage(E: set<Edge>, W: Waypoints, j: nat): (s: set<nat>)
    requires j < |W|
    ensures s <= W[j]
  {
    if j == 0 then W[0] else set v | v in W[j] && PosReach(E, Stage(E, W, j - 1), v)
  }

  lemma {:induction false} VisitIsStaged(E: set<Edge>, W: Waypoints, p: seq<nat>, pos: seq<nat>, j: nat)
    requires IsWalk(E, p) && VisitsInOrder(p, W, pos) && j < |W|
    ensures p[pos[j]] in Stage(E, W, j)
  {
    if j > 0 {
      VisitIsStaged(E, W, p, pos, j - 1);
      var leg := p[pos[j - 1]..pos[j] + 1];
      SliceOfWalk(E, p, pos[j - 1], pos[j] + 1);
    }
  }

  /** A walk that visits W[0..m] can be prolonged by a leg into W[m]. */
  lemma VisitOneMore(p: seq<nat>, W: Waypoints, pos: seq<nat>, leg: seq<nat>, m: nat)
    requires 1 <= m < |W| && VisitsInOrder(p, W[..m], pos) && pos[m - 1] == |p| - 1
    requires |leg| >= 2 && leg[|leg| - 1] in W[m]
    ensures VisitsInOrder(p + leg[1..], W[..m + 1], pos + [|p| + |leg| - 2])
  {
    var pos' := pos + [|p| + |leg| - 2];
    forall j | 0 <= j < m + 1
      ensures pos'[j] < |p + leg[1..]| && (p + leg[1..])[pos'[j]] in W[..m + 1][j]
    {
      if j < m {
        assert W[..m][j] == W[j] && pos'[j] == pos[j];
      }
    }
    forall i, j | 0 <= i < j < m + 1
      ensures pos'[i] < pos'[j]
    {
      if j == m {
        assert pos[i] < |p| by { assert p[pos[i]] in W[..m][i]; }
      }
    }
  }

  lemma {:induction false} StagedIsVisited(E: set<Edge>, W: Waypoints, j: nat, v: nat) returns (p: seq<nat>, pos: seq<nat>)
    requires j < |W| && v in Stage(E, W, j)
    ensures IsWalk(E, p) && p[|p| - 1] == v
    ensures VisitsInOrder(p, W[..j + 1], pos) && pos[j] == |p| - 1
  {
    if j == 0 {
      p, pos := [v], [0];
    } else {
      var leg :| IsWalk(E, leg) && |leg| >= 2 && leg[0] in Stage(E, W, j - 1) && leg[|leg| - 1] == v;
      var q, qos := StagedIsVisited(E, W, j - 1, leg[0]);
      JoinWalks(E, q, leg);
      VisitOneMore(q, W, qos, leg, j);
      p, pos := q + leg[1..], qos + [|q| + |leg| - 2];
    }
  }

  /** The staged search decides separation. */
  lemma StagesDecide(E: set<Edge>, W: Waypoints)
    requires |W| >= 1
    ensures Separated(E, W) <==> Stage(E, W, |W| - 1) == {}
  {
    if !Separated(E, W) {
      var p :| IsWalk(E, p) && Admits(p, W);
      var pos :| VisitsInOrder(p, W, pos);
      VisitIsStaged(E, W, p, pos, |W| - 1);
    }
    if Stage(E, W, |W| - 1) != {} {
      var v :| v in Stage(E, W, |W| - 1);
      var p, pos := StagedIsVisited(E, W, |W| - 1, v);
      assert W[..|W|] == W;
      assert Admits(p, W);
    }
  }
}
