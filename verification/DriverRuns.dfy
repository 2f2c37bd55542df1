/**
 * Runs of the greedy driver: the cuts of all lists, how one cut is recomputed, passes over all lists, and the turn
 * from replacing cuts to augmenting them.
 */
module DriverRuns {
  import opened Graphs
  import opened Waypoints
  import opened EdgeLists
  import opened Runs

  datatype Mode = Replace | Augment

  type CutLists = seq<seq<Edge>>

  ghost function Union(cuts: CutLists): set<Edge> {
    set i, e | 0 <= i < |cuts| && e in cuts[i] :: e
  }

  /** The edges of all cuts but the i-th. */
  ghost function Others(cuts: CutLists, i: nat): set<Edge> {
    set j, e | 0 <= j < |cuts| && j != i && e in cuts[j] :: e
  }

  /** Each cut is sorted and consists of edges of the graph, and no edge is in two cuts. */
  ghost predicate CutsOk(orig: IdxGraph, cuts: CutLists) {
    && (forall i :: 0 <= i < |cuts| ==> StrictlyAscending(cuts[i]) && ToSet(cuts[i]) <= Edges(orig))
    && (forall i, j :: 0 <= i < j < |cuts| ==> ToSet(cuts[i]) !! ToSet(cuts[j]))
  }

  lemma UnionSplits(cuts: CutLists, i: nat)
    requires i < |cuts|
    ensures Union(cuts) == Others(cuts, i) + ToSet(cuts[i])
  {
  }

  lemma UpdateCut(cuts: CutLists, i: nat, cut: seq<Edge>)
    requires i < |cuts|
    ensures Others(cuts[i := cut], i) == Others(cuts, i)
    ensures Union(cuts[i := cut]) == Others(cuts, i) + ToSet(cut)
  {
    var cuts' := cuts[i := cut];
    assert forall j :: 0 <= j < |cuts| && j != i ==> cuts'[j] == cuts[j];
    forall e
      ensures e in Others(cuts', i) <==> e in Others(cuts, i)
    {
      if e in Others(cuts, i) {
        var j :| 0 <= j < |cuts| && j != i && e in cuts[j];
        assert e in cuts'[j];
      }
      if e in Others(cuts', i) {
        var j :| 0 <= j < |cuts'| && j != i && e in cuts'[j];
        assert e in cuts[j];
      }
    }
    UnionSplits(cuts', i);
  }

  lemma OwnAndOthers(orig: IdxGraph, cuts: CutLists, i: nat)
    requires CutsOk(orig, cuts) && i < |cuts|
    ensures Others(cuts, i) !! ToSet(cuts[i]) && Others(cuts, i) <= Edges(orig)
  {
    forall e | e in Others(cuts, i)
      ensures e !in ToSet(cuts[i]) && e in Edges(orig)
    {
      var j :| 0 <= j < |cuts| && j != i && e in cuts[j];
      assert e in ToSet(cuts[j]);
    }
  }

  lemma UpdateOk(orig: IdxGraph, cuts: CutLists, i: nat, cut: seq<Edge>)
    requires CutsOk(orig, cuts) && i < |cuts|
    requires StrictlyAscending(cut) && ToSet(cut) <= Edges(orig) && ToSet(cut) !! Others(cuts, i)
    ensures CutsOk(orig, cuts[i := cut])
  {
    var cuts' := cuts[i := cut];
    forall a, b | 0 <= a < b < |cuts'|
      ensures ToSet(cuts'[a]) !! ToSet(cuts'[b])
    {
      if a == i || b == i {
        var c := if a == i then b else a;
        forall e | e in ToSet(cuts'[c])
          ensures e !in ToSet(cut)
        {
          assert e in cuts[c];
          assert e in Others(cuts, i);
        }
      }
    }
  }

  /** All cuts in a row. */
  ghost function Flat(cuts: CutLists): seq<Edge> {
    if cuts == [] then [] else Flat(cuts[..|cuts| - 1]) + cuts[|cuts| - 1]
  }

  // ---------------------------------------------------------------------------------
  // Passes

  /**
   * The cut of list i anew. It is what some run of the residual loop leaves in the graph without the cuts of the other
   * lists; in Augment mode, in the graph without any of the cuts, and the old cut is kept.
   */
  ghost predicate Recut(orig: IdxGraph, st: Waypoints, cuts: CutLists, i: nat, mode: Mode, cut: seq<Edge>)
    requires i < |cuts| && |st| >= 1
  {
    && StrictlyAscending(cut)
    && if mode.Replace? then CutOfRun(Minus(orig, Others(cuts, i)), st, ToSet(cut))
       else exists found :: CutOfRun(Minus(orig, Union(cuts)), st, found) && ToSet(cut) == found + ToSet(cuts[i])
  }

  ghost predicate CutOfRun(g: IdxGraph, W: Waypoints, cut: set<Edge>)
    requires |W| >= 1
  {
    exists run :: FlowCut(g, W, cut, run)
  }

  ghost predicate ListsFor(sts: seq<Waypoints>) {
    forall i :: 0 <= i < |sts| ==> |sts[i]| >= 1
  }

  /** From the cuts `before` to the cuts `after` by recomputing the first n, one after the other. */
  ghost predicate PassTo(orig: IdxGraph, sts: seq<Waypoints>, before: CutLists, n: nat, mode: Mode, after: CutLists)
    requires n <= |sts| && ListsFor(sts)
  {
    exists mids :: PassOver(orig, sts, before, n, mode, after, mids)
  }

  ghost predicate PassOver(orig: IdxGraph, sts: seq<Waypoints>, before: CutLists, n: nat, mode: Mode, after: CutLists,
                           mids: seq<CutLists>)
    requires n <= |sts| && ListsFor(sts)
  {
    && |mids| == n + 1 && mids[0] == before && mids[n] == after
    && forall i :: 0 <= i < n ==> RecutTo(orig, sts, mids[i], i, mode, mids[i + 1])
  }

  lemma PassNext(orig: IdxGraph, sts: seq<Waypoints>, before: CutLists, mid: CutLists, i: nat, mode: Mode, cut: seq<Edge>)
    requires i < |sts| == |mid| && ListsFor(sts) && PassTo(orig, sts, before, i, mode, mid)
    requires Recut(orig, sts[i], mid, i, mode, cut)
    ensures PassTo(orig, sts, before, i + 1, mode, mid[i := cut])
  {
    var mids :| PassOver(orig, sts, before, i, mode, mid, mids);
    var after := mid[i := cut];
    assert RecutTo(orig, sts, mid, i, mode, after);
    assert PassOver(orig, sts, before, i + 1, mode, after, mids + [after]);
  }

  lemma NoPass(orig: IdxGraph, sts: seq<Waypoints>, before: CutLists, mode: Mode)
    requires ListsFor(sts)
    ensures PassTo(orig, sts, before, 0, mode, before)
  {
    assert PassOver(orig, sts, before, 0, mode, before, [before]);
  }

  ghost predicate RecutTo(orig: IdxGraph, sts: seq<Waypoints>, before: CutLists, i: nat, mode: Mode, after: CutLists)
    requires i < |sts| && |sts[i]| >= 1
  {
    && |before| == |after| == |sts| && after == before[i := after[i]]
    && Recut(orig, sts[i], before, i, mode, after[i])
  }

  /** The passes so far, each with its mode, the cuts it ends with and whether time was up then. */
  datatype Driver = Begin | Pass(before: Driver, mode: Mode, cuts: CutLists, timeUp: bool) {
    ghost function State(n: nat): CutLists {
      if Begin? then seq(n, i => []) else cuts
    }

    /** The cuts that passes have ended with. */
    ghost function Seen(): set<CutLists> {
      if Begin? then {} else before.Seen() + {cuts}
    }

    /** Replace until the cuts come back or time is up, and Augment from then on. */
    ghost function NextMode(): Mode {
      if Begin? then Replace
      else if mode.Augment? || cuts in before.Seen() || timeUp then Augment
      else Replace
    }
  }

  /** The passes follow each other in the modes they should, and each but the last has changed something. */
  ghost predicate IsDriver(orig: IdxGraph, sts: seq<Waypoints>, d: Driver)
    requires ListsFor(sts)
  {
    d.Pass? ==>
      && IsDriver(orig, sts, d.before) && (d.before.Pass? ==> !Ended(sts, d.before))
      && d.mode == d.before.NextMode() && PassTo(orig, sts, d.before.State(|sts|), |sts|, d.mode, d.cuts)
  }

  ghost predicate Ended(sts: seq<Waypoints>, d: Driver) {
    d.Pass? && d.cuts == d.before.State(|sts|)
  }
}
