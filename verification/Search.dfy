/**
 * The depth-first searches over a graph: discovery with parent links, the trace back along those
 * links, and the search for a walk through a list of waypoint sets.
 */
module Search {
  import opened Graphs
  import opened Waypoints

  ghost predicate Distinct(s: seq<nat>) {
    forall i, j :: 0 <= i < j < |s| ==> s[i] != s[j]
  }

  /**
   * `order` lists the discovered nodes in the order of their discovery. The parent of each is a source
   * or was discovered before it, which is why following parents comes to an end.
   */
  ghost predicate DiscoveryTree(E: set<Edge>, sources: set<nat>, parent: map<nat, nat>, order: seq<nat>) {
    && Distinct(order)
    && (forall v :: v in parent <==> v in order)
    && (forall i :: 0 <= i < |order| ==>
          && Edge(parent[order[i]], order[i]) in E
          && (parent[order[i]] in sources || parent[order[i]] in order[..i]))
  }

  lemma DiscoveredIsReached(E: set<Edge>, sources: set<nat>, parent: map<nat, nat>, order: seq<nat>, i: nat)
    requires DiscoveryTree(E, sources, parent, order) && i < |order|
    ensures PosReach(E, sources, order[i])
  {
    var u := parent[order[i]];
    if u !in sources {
      var k :| 0 <= k < i && order[..i][k] == u;
      DiscoveredIsReached(E, sources, parent, order, k);
    }
    PosReachStep(E, sources, u, order[i]);
  }

  /** A new node hangs below a source or below a node discovered already. */
  lemma DiscoverOneMore(E: set<Edge>, sources: set<nat>, parent: map<nat, nat>, order: seq<nat>, u: nat, v: nat)
    requires DiscoveryTree(E, sources, parent, order)
    requires v !in parent && Edge(u, v) in E && (u in sources || u in parent)
    ensures DiscoveryTree(E, sources, parent[v := u], order + [v])
  {
    var parent', order' := parent[v := u], order + [v];
    assert v !in order;
    forall w
      ensures w in parent' <==> w in order'
    {
    }
    forall i | 0 <= i < |order'|
      ensures Edge(parent'[order'[i]], order'[i]) in E
      ensures parent'[order'[i]] in sources || parent'[order'[i]] in order'[..i]
    {
      if i < |order| {
        assert order'[i] == order[i] && order'[..i] == order[..i];
      } else {
        assert order'[..i] == order;
      }
    }
  }

  /** Pushes and marks the successors of `u` that were not met before. */
  method Expand(g: IdxGraph, ghost E: set<Edge>, ghost sources: set<nat>, barrier: set<nat>, u: nat, stack: seq<nat>,
                parent: map<nat, nat>, ghost order: seq<nat>)
    returns (stack': seq<nat>, parent': map<nat, nat>, ghost order': seq<nat>)
    requires WellFormed(g) && u < |g| && (u in sources || u in parent)
    requires forall v :: v in g[u] && v !in barrier ==> Edge(u, v) in E
    requires DiscoveryTree(E, sources, parent, order)
    ensures DiscoveryTree(E, sources, parent', order')
    ensures order <= order' && stack' == stack + order'[|order|..]
    ensures parent.Keys <= parent'.Keys
    ensures forall v :: v in parent'.Keys ==> v in parent.Keys || (v in stack' && v < |g|)
    ensures forall v :: v in g[u] && v !in barrier ==> v in parent'
  {
    stack', parent', order' := stack, parent, order;
    var row := g[u].Keys;
    while row != {}
      invariant row <= g[u].Keys
      invariant DiscoveryTree(E, sources, parent', order')
      invariant order <= order' && stack' == stack + order'[|order|..]
      invariant parent.Keys <= parent'.Keys
      invariant forall v :: v in parent' ==> v in parent || (v in stack' && v < |g|)
      invariant forall v :: v in g[u] && v !in barrier ==> v in parent' || v in row
    {
      var v :| v in row;
      row := row - {v};
      if v !in barrier && v !in parent' {
        DiscoverOneMore(E, sources, parent', order', u, v);
        stack' := stack' + [v];
        parent' := parent'[v := u];
        order' := order' + [v];
      }
    }
  }

  /** The nodes of a set, pushed one by one. */
  method PushAll(sources: set<nat>) returns (stack: seq<nat>)
    ensures forall s :: s in stack <==> s in sources
  {
    stack := [];
    var toPush := sources;
    while toPush != {}
      invariant toPush <= sources
      invariant forall s :: s in stack <==> s in sources - toPush
    {
      var s :| s in toPush;
      toPush := toPush - {s};
      stack := stack + [s];
    }
  }

  lemma DiscoveredInOrder(E: set<Edge>, sources: set<nat>, parent: map<nat, nat>, order: seq<nat>,
                          parent': map<nat, nat>, order': seq<nat>)
    requires DiscoveryTree(E, sources, parent, order) && DiscoveryTree(E, sources, parent', order')
    requires order <= order'
    ensures order == order' ==> parent'.Keys == parent.Keys
    ensures order != order' ==> parent'.Keys > parent.Keys
  {
    if order != order' {
      var v := order'[|order|];
      assert v in parent' && v !in parent;
    }
  }

  /** When the discovered nodes are closed under the edges, they are all that can be reached. */
  lemma ClosedTreeIsReach(E: set<Edge>, sources: set<nat>, parent: map<nat, nat>, order: seq<nat>)
    requires DiscoveryTree(E, sources, parent, order)
    requires forall e :: e in E && (e.src in sources || e.src in parent) ==> e.dst in parent
    ensures forall v :: v in parent <==> PosReach(E, sources, v)
  {
    forall v
      ensures v in parent <==> PosReach(E, sources, v)
    {
      if v in parent {
        var i :| 0 <= i < |order| && order[i] == v;
        DiscoveredIsReached(E, sources, parent, order, i);
      }
      if PosReach(E, sources, v) {
        var p :| IsWalk(E, p) && |p| >= 2 && p[0] in sources && p[|p| - 1] == v;
        WalkStays(E, sources, parent.Keys, p, |p| - 1);
      }
    }
  }

  /** Only nodes on the stack may have successors that were not met yet. */
  ghost predicate Frontier(E: set<Edge>, n: nat, sources: set<nat>, met: set<nat>, stack: seq<nat>) {
    && met <= NodesBelow(n)
    && (forall u :: u in stack ==> u in sources || u in met)
    && (forall e :: e in E && (e.src in sources || e.src in met) ==> e.src in stack || e.dst in met)
  }

  lemma FrontierMoves(E: set<Edge>, g: IdxGraph, sources: set<nat>, barrier: set<nat>,
                      met: set<nat>, stack: seq<nat>, met': set<nat>, stack': seq<nat>)
    requires E == Avoiding(Edges(g), barrier)
    requires Frontier(E, |g|, sources, met, stack) && |stack| > 0
    requires stack[..|stack| - 1] <= stack' && met <= met'
    requires forall v :: v in stack'[|stack| - 1..] ==> v in met'
    requires forall v :: v in met' ==> v in met || (v in stack' && v < |g|)
    requires stack[|stack| - 1] < |g|
    requires forall v :: v in g[stack[|stack| - 1]] && v !in barrier ==> v in met'
    ensures Frontier(E, |g|, sources, met', stack')
  {
    var rest, u := stack[..|stack| - 1], stack[|stack| - 1];
    assert stack == rest + [u];
    assert stack' == rest + stack'[|stack| - 1..];
    forall e | e in E && (e.src in sources || e.src in met') && e.src !in stack'
      ensures e.dst in met'
    {
      assert e.src !in rest;
      assert e.src in sources || e.src in met;
    }
  }

  /**
   * Everything that a walk of at least one edge reaches from `sources` without entering `barrier`,
   * each node with the parent it was discovered from.
   */
  method Discover(g: IdxGraph, sources: set<nat>, barrier: set<nat>)
    returns (parent: map<nat, nat>, ghost order: seq<nat>)
    requires WellFormed(g) && forall s :: s in sources ==> s < |g|
    ensures DiscoveryTree(Avoiding(Edges(g), barrier), sources, parent, order)
    ensures forall v :: v in parent <==> PosReach(Avoiding(Edges(g), barrier), sources, v)
  {
    ghost var E := Avoiding(Edges(g), barrier);
    parent, order := map[], [];
    var stack := PushAll(sources);
    while |stack| > 0
      invariant DiscoveryTree(E, sources, parent, order)
      invariant Frontier(E, |g|, sources, parent.Keys, stack)
      decreases NodesBelow(|g|) - parent.Keys, |stack|
    {
      var rest, parentBefore := stack[..|stack| - 1], parent;
      ghost var stackBefore, orderBefore := stack, order;
      assert stack[|stack| - 1] in stack;
      stack, parent, order := Expand(g, E, sources, barrier, stack[|stack| - 1], rest, parent, order);
      FrontierMoves(E, g, sources, barrier, parentBefore.Keys, stackBefore, parent.Keys, stack);
      DiscoveredInOrder(E, sources, parentBefore, orderBefore, parent, order);
    }
    ClosedTreeIsReach(E, sources, parent, order);
  }

  /** path[a..b] is a leg out of `stage`: no node twice after its start, no node of the stage inside. */
  ghost predicate IsLeg(stage: set<nat>, path: seq<nat>, a: nat, b: nat) {
    && a < b < |path|
    && path[a] in stage
    && (forall i, i' :: a < i < i' <= b ==> path[i] != path[i'])
    && (forall i :: a < i < b ==> path[i] !in stage)
  }

  /** A walk to `t` over discovered nodes, none but the end a source, later in the order of discovery step by step. */
  ghost predicate Traced(E: set<Edge>, sources: set<nat>, order: seq<nat>, leg: seq<nat>, index: seq<nat>, t: nat) {
    && IsWalk(E, leg) && leg[|leg| - 1] == t && |index| == |leg|
    && (forall i :: 0 <= i < |index| ==> index[i] < |order| && order[index[i]] == leg[i])
    && (forall i, j :: 0 <= i < j < |index| ==> index[i] < index[j])
    && (forall i :: 0 <= i < |leg| - 1 ==> leg[i] !in sources)
  }

  lemma TraceMore(E: set<Edge>, sources: set<nat>, order: seq<nat>, leg: seq<nat>, index: seq<nat>, t: nat, u: nat, k: nat)
    requires Traced(E, sources, order, leg, index, t) && Edge(u, leg[0]) in E
    requires k < index[0] && order[k] == u && u !in sources
    ensures Traced(E, sources, order, [u] + leg, [k] + index, t)
  {
    TraceWalk(E, leg, u);
    var index' := [k] + index;
    forall i, j | 0 <= i < j < |index'|
      ensures index'[i] < index'[j]
    {
      assert index'[j] == index[j - 1];
      assert i > 0 ==> index'[i] == index[i - 1];
    }
  }

  lemma TraceWalk(E: set<Edge>, leg: seq<nat>, u: nat)
    requires IsWalk(E, leg) && Edge(u, leg[0]) in E
    ensures IsWalk(E, [u] + leg)
  {
    EdgeIsWalk(E, u, leg[0]);
    JoinWalks(E, [u, leg[0]], leg);
    assert [u] + leg == [u, leg[0]] + leg[1..];
  }

  lemma TraceEnds(E: set<Edge>, sources: set<nat>, order: seq<nat>, leg: seq<nat>, index: seq<nat>, t: nat, u: nat)
    requires Traced(E, sources, order, leg, index, t) && Distinct(order) && Edge(u, leg[0]) in E && u in sources
    ensures IsWalk(E, [u] + leg) && IsLeg(sources, [u] + leg, 0, |leg|)
  {
    TraceWalk(E, leg, u);
    var longer := [u] + leg;
    forall i, i' | 0 < i < i' <= |leg|
      ensures longer[i] != longer[i']
    {
      assert longer[i] == leg[i - 1] && longer[i'] == leg[i' - 1];
      assert order[index[i - 1]] != order[index[i' - 1]];
    }
  }

  /**
   * From the discovered node `t` back to the first source met. The walk repeats no node after its
   * start, and only its start and perhaps its end are sources.
   */
  method TraceLeg(ghost E: set<Edge>, sources: set<nat>, parent: map<nat, nat>, ghost order: seq<nat>, t: nat)
    returns (leg: seq<nat>)
    requires DiscoveryTree(E, sources, parent, order) && t in parent
    ensures IsWalk(E, leg) && |leg| >= 2 && leg[0] in sources && leg[|leg| - 1] == t
    ensures IsLeg(sources, leg, 0, |leg| - 1)
  {
    ghost var k :| 0 <= k < |order| && order[k] == t;
    ghost var index: seq<nat> := [k];
    var v := t;
    leg := [t];
    while parent[v] !in sources
      invariant Traced(E, sources, order, leg, index, t)
      invariant index[0] == k && leg[0] == v && v in parent
      decreases k
    {
      assert Edge(parent[v], v) in E && parent[v] in order[..k];
      ghost var k' :| 0 <= k' < k && order[..k][k'] == parent[v];
      TraceMore(E, sources, order, leg, index, t, parent[v], k');
      v := parent[v];
      leg, index, k := [v] + leg, [k'] + index, k';
      assert v in order;
    }
    assert Edge(parent[v], order[k]) in E;
    TraceEnds(E, sources, order, leg, index, t, parent[v]);
    leg := [parent[v]] + leg;
  }

  // ---------------------------------------------------------------------------------
  // The walk that the staged search joins from one leg per pair of consecutive sets

  /** `path` runs through the sets from W[m] on, one leg from each to the next. */
  ghost predicate StagedWalk(E: set<Edge>, W: Waypoints, m: nat, path: seq<nat>, pos: seq<nat>)
    requires m < |W|
  {
    && IsWalk(E, path)
    && |pos| == |W| - m
    && pos[0] == 0 && pos[|pos| - 1] == |path| - 1
    && path[|path| - 1] in Stage(E, W, |W| - 1)
    && forall j :: 0 <= j < |pos| - 1 ==> IsLeg(Stage(E, W, m + j), path, pos[j], pos[j + 1])
  }

  /** Positions of a walk after `d` more nodes were put in front of it. */
  function Shift(pos: seq<nat>, d: nat): (r: seq<nat>)
    ensures |r| == |pos| && forall j :: 0 <= j < |pos| ==> r[j] == pos[j] + d
  {
    seq(|pos|, j requires 0 <= j < |pos| => pos[j] + d)
  }

  lemma ShiftLeg(stage: set<nat>, path: seq<nat>, a: nat, b: nat, leg: seq<nat>)
    requires IsLeg(stage, path, a, b) && |leg| >= 1 && leg[|leg| - 1] == path[0]
    ensures IsLeg(stage, leg + path[1..], a + |leg| - 1, b + |leg| - 1)
  {
    var path', d := leg + path[1..], |leg| - 1;
    forall i | a <= i <= b
      ensures path'[i + d] == path[i]
    {
    }
    assert path'[a + d] == path[a];
    forall i, i' | a + d < i < i' <= b + d
      ensures path'[i] != path'[i']
    {
      assert path'[(i - d) + d] == path[i - d] && path'[(i' - d) + d] == path[i' - d];
    }
    forall i | a + d < i < b + d
      ensures path'[i] !in stage
    {
      assert path'[(i - d) + d] == path[i - d];
    }
  }

  lemma PrependLeg(E: set<Edge>, W: Waypoints, m: nat, path: seq<nat>, pos: seq<nat>, leg: seq<nat>)
    requires 0 < m < |W| && StagedWalk(E, W, m, path, pos)
    requires IsWalk(E, leg) && leg[|leg| - 1] == path[0]
    requires IsLeg(Stage(E, W, m - 1), leg, 0, |leg| - 1)
    ensures StagedWalk(E, W, m - 1, leg + path[1..], [0] + Shift(pos, |leg| - 1))
  {
    var path', pos' := leg + path[1..], [0] + Shift(pos, |leg| - 1);
    JoinWalks(E, leg, path);
    forall j | 0 <= j < |pos'| - 1
      ensures IsLeg(Stage(E, W, m - 1 + j), path', pos'[j], pos'[j + 1])
    {
      if j == 0 {
        assert forall i :: 0 <= i < |leg| ==> path'[i] == leg[i];
        assert pos'[1] == |leg| - 1;
      } else {
        assert m - 1 + j == m + (j - 1);
        ShiftLeg(Stage(E, W, m + (j - 1)), path, pos[j - 1], pos[j], leg);
      }
    }
  }

  lemma {:induction false} LegsAreOrdered(E: set<Edge>, W: Waypoints, path: seq<nat>, pos: seq<nat>, i: nat, j: nat)
    requires |W| >= 1 && StagedWalk(E, W, 0, path, pos) && i < j < |pos|
    ensures pos[i] < pos[j]
  {
    assert IsLeg(Stage(E, W, 0 + (j - 1)), path, pos[j - 1], pos[j - 1 + 1]);
    if i < j - 1 {
      LegsAreOrdered(E, W, path, pos, i, j - 1);
    }
  }

  lemma StagedWalkVisits(E: set<Edge>, W: Waypoints, path: seq<nat>, pos: seq<nat>)
    requires |W| >= 1 && StagedWalk(E, W, 0, path, pos)
    ensures VisitsInOrder(path, W, pos)
  {
    forall j | 0 <= j < |W|
      ensures pos[j] < |path| && path[pos[j]] in W[j]
    {
      if j < |W| - 1 {
        assert IsLeg(Stage(E, W, 0 + j), path, pos[j], pos[j + 1]);
      }
    }
    forall i, j | 0 <= i < j < |W|
      ensures pos[i] < pos[j]
    {
      LegsAreOrdered(E, W, path, pos, i, j);
    }
  }

  /** What the forward phase of the search leaves behind for stage j. */
  ghost predicate SearchedAt(E: set<Edge>, W: Waypoints, j: nat, sources: set<nat>, parent: map<nat, nat>, order: seq<nat>)
    requires j + 1 < |W|
  {
    && sources == Stage(E, W, j)
    && DiscoveryTree(E, sources, parent, order)
    && Stage(E, W, j + 1) <= parent.Keys
  }

  ghost predicate Searched(E: set<Edge>, W: Waypoints, m: nat, reached: seq<set<nat>>,
                           parents: seq<map<nat, nat>>, orders: seq<seq<nat>>)
    requires m < |W|
  {
    && |parents| == |orders| == |reached| == m
    && forall j {:trigger parents[j]} :: 0 <= j < m ==> SearchedAt(E, W, j, reached[j], parents[j], orders[j])
  }

  /** The forward phase: which nodes of each waypoint set the stages reach. */
  method SearchStages(g: IdxGraph, W: Waypoints)
    returns (S: set<nat>, reached: seq<set<nat>>, parents: seq<map<nat, nat>>, ghost orders: seq<seq<nat>>)
    requires WellFormed(g) && WaypointsOf(g, W) && |W| >= 2
    ensures S == Stage(Edges(g), W, |W| - 1)
    ensures Searched(Edges(g), W, |W| - 1, reached, parents, orders)
  {
    ghost var E := Edges(g);
    assert Avoiding(E, {}) == E;
    parents, orders, reached := [], [], [];
    S := W[0];
    for i := 1 to |W|
      invariant S == Stage(E, W, i - 1)
      invariant Searched(E, W, i - 1, reached, parents, orders)
    {
      assert forall s :: s in S ==> s in W[i - 1];
      var parent, order := Discover(g, S, {});
      assert SearchedAt(E, W, i - 1, S, parent, order);
      reached, parents, orders := reached + [S], parents + [parent], orders + [order];
      S := set v | v in W[i] && v in parent;
    }
  }

  /** Puts the leg out of stage i in front of a walk that starts in the next stage. */
  method TraceStage(ghost E: set<Edge>, ghost W: Waypoints, ghost i: nat, sources: set<nat>, parent: map<nat, nat>,
                    ghost order: seq<nat>, path: seq<nat>, ghost pos: seq<nat>)
    returns (path': seq<nat>, ghost pos': seq<nat>)
    requires i + 1 < |W| && SearchedAt(E, W, i, sources, parent, order)
    requires StagedWalk(E, W, i + 1, path, pos) && path[0] in Stage(E, W, i + 1)
    ensures StagedWalk(E, W, i, path', pos') && path'[0] in Stage(E, W, i)
  {
    var leg := TraceLeg(E, sources, parent, order, path[0]);
    PrependLeg(E, W, i + 1, path, pos, leg);
    path', pos' := leg + path[1..], [0] + Shift(pos, |leg| - 1);
  }

  /** The backward phase: one leg per stage, back from some node of the last set. */
  method TraceBack(ghost E: set<Edge>, W: Waypoints, S: set<nat>, reached: seq<set<nat>>, parents: seq<map<nat, nat>>,
                   ghost orders: seq<seq<nat>>)
    returns (path: seq<nat>, ghost pos: seq<nat>)
    requires |W| >= 2 && S != {} && S == Stage(E, W, |W| - 1)
    requires Searched(E, W, |W| - 1, reached, parents, orders)
    ensures StagedWalk(E, W, 0, path, pos)
  {
    var t :| t in S;
    path, pos := [t], [0];
    var i := |W| - 1;
    while i > 0
      invariant 0 <= i < |W|
      invariant StagedWalk(E, W, i, path, pos) && path[0] in Stage(E, W, i)
    {
      i := i - 1;
      path, pos := TraceStage(E, W, i, reached[i], parents[i], orders[i], path, pos);
    }
  }

  /**
   * Searches a walk through the waypoint sets, stage by stage: first what each stage can reach, then
   * back from some node of the last set, one leg per stage.
   */
  method FindStPathMulti(g: IdxGraph, W: Waypoints)
    returns (found: bool, path: seq<nat>, ghost pos: seq<nat>)
    requires WellFormed(g) && WaypointsOf(g, W) && |W| >= 2
    ensures found <==> !Separated(Edges(g), W)
    ensures found ==> IsWalk(Edges(g), path) && VisitsInOrder(path, W, pos)
    ensures found ==> StagedWalk(Edges(g), W, 0, path, pos)
  {
    var S, reached, parents, orders := SearchStages(g, W);
    StagesDecide(Edges(g), W);
    if S == {} {
      return false, [], [];
    }
    path, pos := TraceBack(Edges(g), W, S, reached, parents, orders);
    StagedWalkVisits(Edges(g), W, path, pos);
    found := true;
  }

  /** The sources and everything that a walk from them reaches. */
  method FindReachableMulti(g: IdxGraph, sources: set<nat>) returns (reach: set<nat>)
    requires WellFormed(g) && forall s :: s in sources ==> s < |g|
    ensures forall v :: v in reach <==> v in sources || PosReach(Edges(g), sources, v)
  {
    ghost var E := Edges(g);
    reach := {};
    var stack := PushAll(sources);
    while |stack| > 0
      invariant reach <= NodesBelow(|g|)
      invariant forall u: nat :: u in stack || u in reach ==> u < |g| && (u in sources || PosReach(E, sources, u))
      invariant forall s :: s in sources ==> s in reach || s in stack
      invariant forall e :: e in E && e.src in reach ==> e.dst in reach || e.dst in stack
      decreases NodesBelow(|g|) - reach, |stack|
    {
      var u, rest := stack[|stack| - 1], stack[..|stack| - 1];
      assert u in stack && forall w :: w in stack <==> w == u || w in rest;
      if u in reach {
        stack := rest;
      } else {
        reach := reach + {u};
        forall v: nat | v in g[u]
          ensures v < |g| && PosReach(E, sources, v)
        {
          assert Edge(u, v) in E;
          PosReachStep(E, sources, u, v);
        }
        var succs := PushAll(g[u].Keys);
        stack := rest + succs;
        assert forall w :: w in stack <==> w in rest || w in g[u].Keys;
      }
    }
    forall v | PosReach(E, sources, v)
      ensures v in reach
    {
      var p :| IsWalk(E, p) && |p| >= 2 && p[0] in sources && p[|p| - 1] == v;
      WalkStays(E, sources, reach, p, |p| - 1);
    }
  }
}
