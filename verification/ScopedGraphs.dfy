/** A copy-on-write graph: rows are copied from a base graph when they are first written to. */
module ScopedGraphs {
  import opened Graphs

  function With(row: Dsts, v: nat, w: u32): Dsts {
    row[v := w]
  }

  function Without(row: Dsts, v: nat): Dsts {
    row - {v}
  }

  /** The graph with the weight of one edge replaced; weight 0 takes the edge out. */
  function SetWeight(g: IdxGraph, e: Edge, w: u32): (r: IdxGraph)
    requires e.src < |g|
    ensures |r| == |g|
  {
    g[e.src := if w > 0 then With(g[e.src], e.dst, w) else Without(g[e.src], e.dst)]
  }

  lemma WeightAfterSet(g: IdxGraph, e: Edge, w: u32, f: Edge)
    requires e.src < |g|
    ensures Weight(SetWeight(g, e, w), f) == if f == e then w else Weight(g, f)
  {
  }

  lemma SetKeepsWellFormed(g: IdxGraph, e: Edge, w: u32)
    requires WellFormed(g) && e.src < |g| && e.dst < |g|
    ensures WellFormed(SetWeight(g, e, w))
  {
  }

  class ScopedGraph {
    const orig: IdxGraph
    var mod: map<nat, Dsts>

    constructor (orig: IdxGraph)
      ensures this.orig == orig && Rows() == orig
    {
      this.orig := orig;
      mod := map[];
    }

    /** The row that an iteration over the edges out of `src` runs through. */
    function Row(src: nat): Dsts
      requires src < |orig|
      reads this
    {
      if src in mod then mod[src] else orig[src]
    }

    function Rows(): (g: IdxGraph)
      reads this
      ensures |g| == |orig|
    {
      seq(|orig|, u requires 0 <= u < |orig| reads this => Row(u))
    }

    /** Lookup in the copied row if there is one, else in the base: both agree with the rows listed. */
    function GetWeight(src: nat, dst: nat): (w: u32)
      requires src < |orig|
      reads this
      ensures w == Weight(Rows(), Edge(src, dst))
    {
      if src in mod then
        if dst in mod[src] then mod[src][dst] else 0
      else
        Weight(orig, Edge(src, dst))
    }

    method PutWeight(src: nat, dst: nat, w: u32)
      requires src < |orig|
      modifies this
      ensures Rows() == SetWeight(old(Rows()), Edge(src, dst), w)
    {
      if src !in mod {
        mod := mod[src := orig[src]];
      }
      if w > 0 {
        mod := mod[src := With(mod[src], dst, w)];
      } else {
        mod := mod[src := Without(mod[src], dst)];
      }
    }
  }

  // ---------------------------------------------------------------------------------
  // Any sequence of writes behaves like writes to a plain total map from edges to weights

  datatype Put = Put(edge: Edge, weight: u32)

  ghost predicate PutsOf(g: IdxGraph, puts: seq<Put>) {
    forall i :: 0 <= i < |puts| ==> puts[i].edge.src < |g| && puts[i].edge.dst < |g|
  }

  function AfterPuts(g: IdxGraph, puts: seq<Put>): (r: IdxGraph)
    requires PutsOf(g, puts)
    ensures |r| == |g|
  {
    if puts == [] then g
    else
      var last := puts[|puts| - 1];
      SetWeight(AfterPuts(g, puts[..|puts| - 1]), last.edge, last.weight)
  }

  /** What a total map holds for `e` after the same writes: the last weight written, else the initial one. */
  function LastWritten(puts: seq<Put>, e: Edge, initial: u32): u32 {
    if puts == [] then initial
    else if puts[|puts| - 1].edge == e then puts[|puts| - 1].weight
    else LastWritten(puts[..|puts| - 1], e, initial)
  }

  lemma {:induction false} PutsRefineWeightMap(g: IdxGraph, puts: seq<Put>, e: Edge)
    requires WellFormed(g) && PutsOf(g, puts)
    ensures Weight(AfterPuts(g, puts), e) == LastWritten(puts, e, Weight(g, e))
    ensures WellFormed(AfterPuts(g, puts))
    ensures e in Edges(AfterPuts(g, puts)) <==> LastWritten(puts, e, Weight(g, e)) > 0
  {
    if puts != [] {
      var before, last := AfterPuts(g, puts[..|puts| - 1]), puts[|puts| - 1];
      PutsRefineWeightMap(g, puts[..|puts| - 1], e);
      WeightAfterSet(before, last.edge, last.weight, e);
      SetKeepsWellFormed(before, last.edge, last.weight);
    }
    EdgesAreWeighted(AfterPuts(g, puts), e);
  }
}
