/** Directed graphs with 32-bit weights, their walks, and what is reachable along them. */
module Graphs {

  const TWO_TO_THE_32 := 0x1_0000_0000

  /** `unsigned`: the type of every edge weight. */
  type u32 = w: int | 0 <= w < TWO_TO_THE_32

  datatype Edge = Edge(src: nat, dst: nat)

  /** One row of a graph: the successors of a node with the weight of each edge. */
  type Dsts = map<nat, u32>

  /** A graph over the nodes 0, 1, ..., |g|-1. */
  type IdxGraph = seq<Dsts>

  /** Every edge leads to a node of the graph, and no edge of weight zero is listed. */
  ghost predicate WellFormed(g: IdxGraph) {
    forall u, v :: 0 <= u < |g| && v in g[u] ==> v < |g| && g[u][v] > 0
  }

  /** The weight of an edge, 0 when there is none. */
  function Weight(g: IdxGraph, e: Edge): u32 {
    if e.src < |g| && e.dst in g[e.src] then g[e.src][e.dst] else 0
  }

  /** The first `n` nodes. */
  function NodesBelow(n: nat): (s: set<nat>)
    ensures forall v: nat :: v in s <==> v < n
  {
    if n == 0 then {} else NodesBelow(n - 1) + {n - 1}
  }

  function Edges(g: IdxGraph): set<Edge> {
    set u, v | 0 <= u < |g| && v in g[u] :: Edge(u, v)
  }

  lemma EdgesAreWeighted(g: IdxGraph, e: Edge)
    requires WellFormed(g)
    ensures e in Edges(g) <==> Weight(g, e) > 0
    ensures e in Edges(g) ==> e.src < |g| && e.dst < |g|
  {
  }

  /** The graph without the edges of `cut`. */
  function Minus(g: IdxGraph, cut: set<Edge>): (r: IdxGraph)
    ensures |r| == |g|
  {
    seq(|g|, u requires 0 <= u < |g| => map v | v in g[u] && Edge(u, v) !in cut :: g[u][v])
  }

  lemma MinusEdges(g: IdxGraph, cut: set<Edge>)
    ensures Edges(Minus(g, cut)) == Edges(g) - cut
    ensures forall e :: e in Edges(g) - cut ==> Weight(Minus(g, cut), e) == Weight(g, e)
    ensures WellFormed(g) ==> WellFormed(Minus(g, cut))
  {
    var m := Minus(g, cut);
    forall e
      ensures e in Edges(m) <==> e in Edges(g) - cut
      ensures e in Edges(g) - cut ==> Weight(m, e) == Weight(g, e)
    {
      if e.src < |g| {
        assert m[e.src] == map v | v in g[e.src] && Edge(e.src, v) !in cut :: g[e.src][v];
      }
    }
  }

  // ---------------------------------------------------------------------------------
  // Walks

  /** The i-th edge of a walk. */
  function Hop(p: seq<nat>, i: nat): Edge
    requires i + 1 < |p|
  {
    Edge(p[i], p[i + 1])
  }

  ghost predicate IsWalk(E: set<Edge>, p: seq<nat>) {
    && |p| >= 1
    && forall i :: 0 <= i < |p| - 1 ==> Hop(p, i) in E
  }

  lemma EdgeIsWalk(E: set<Edge>, u: nat, v: nat)
    requires Edge(u, v) in E
    ensures IsWalk(E, [u, v])
  {
    assert Hop([u, v], 0) == Edge(u, v);
  }

  lemma JoinWalks(E: set<Edge>, p: seq<nat>, q: seq<nat>)
    requires IsWalk(E, p) && IsWalk(E, q) && p[|p| - 1] == q[0]
    ensures IsWalk(E, p + q[1..])
  {
    var r, d := p + q[1..], |p| - 1;
    forall i | 0 <= i < |r| - 1
      ensures Hop(r, i) in E
    {
      if i < d {
        assert Hop(r, i) == Hop(p, i);
      } else {
        assert Hop(r, i) == Hop(q, i - d);
      }
    }
  }

  lemma SliceOfWalk(E: set<Edge>, p: seq<nat>, a: nat, b: nat)
    requires IsWalk(E, p) && a < b <= |p|
    ensures IsWalk(E, p[a..b])
  {
    forall i | 0 <= i < b - a - 1
      ensures Hop(p[a..b], i) in E
    {
      assert Hop(p[a..b], i) == Hop(p, a + i);
    }
  }

  lemma WalkWithMoreEdges(E: set<Edge>, F: set<Edge>, p: seq<nat>)
    requires IsWalk(E, p) && E <= F
    ensures IsWalk(F, p)
  {
    forall i | 0 <= i < |p| - 1
      ensures Hop(p, i) in F
    {
      assert Hop(p, i) in E;
    }
  }

  /** The edges that do not lead into `barrier`. */
  function Avoiding(E: set<Edge>, barrier: set<nat>): set<Edge> {
    set e | e in E && e.dst !in barrier
  }

  /** `v` ends a walk of at least one edge that starts in `sources`. */
  ghost predicate PosReach(E: set<Edge>, sources: set<nat>, v: nat) {
    exists p :: IsWalk(E, p) && |p| >= 2 && p[0] in sources && p[|p| - 1] == v
  }

  /** A set closed under the edges, entered by the first edge, holds all of the walk but its start. */
  lemma WalkStays(E: set<Edge>, sources: set<nat>, closed: set<nat>, p: seq<nat>, i: nat)
    requires forall e :: e in E && (e.src in sources || e.src in closed) ==> e.dst in closed
    requires IsWalk(E, p) && p[0] in sources && 1 <= i < |p|
    ensures p[i] in closed
  {
    assert Hop(p, i - 1) in E;
    if i > 1 {
      WalkStays(E, sources, closed, p, i - 1);
    }
  }

  lemma PosReachStep(E: set<Edge>, sources: set<nat>, u: nat, v: nat)
    requires Edge(u, v) in E && (u in sources || PosReach(E, sources, u))
    ensures PosReach(E, sources, v)
  {
    EdgeIsWalk(E, u, v);
    if u in sources {
      assert |[u, v]| == 2;
    } else {
      var p :| IsWalk(E, p) && |p| >= 2 && p[0] in sources && p[|p| - 1] == u;
      JoinWalks(E, p, [u, v]);
      assert [u, v][1..] == [v];
    }
  }
}
