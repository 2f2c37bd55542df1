/** Sums of edge weights, and the weight that leaves a set of nodes. */
module Weights {
  import opened Graphs
  import opened Lifting

  ghost function SumW(g: IdxGraph, E: set<Edge>): nat {
    if E == {} then 0
    else
      var e :| e in E;
      Weight(g, e) + SumW(g, E - {e})
  }

  lemma {:induction false} SumWithout(g: IdxGraph, E: set<Edge>, e: Edge)
    requires e in E
    ensures SumW(g, E) == Weight(g, e) + SumW(g, E - {e})
  {
    var c :| c in E && SumW(g, E) == Weight(g, c) + SumW(g, E - {c});
    if c != e {
      SumWithout(g, E - {c}, e);
      SumWithout(g, E - {e}, c);
      assert E - {c} - {e} == E - {e} - {c};
    }
  }

  lemma {:induction false} SumChange(g: IdxGraph, h: IdxGraph, E: set<Edge>, d: Edge)
    requires forall e :: e in E && e != d ==> Weight(h, e) == Weight(g, e)
    ensures SumW(h, E) == SumW(g, E) + (if d in E then Weight(h, d) - Weight(g, d) else 0)
    decreases E
  {
    if E != {} {
      var c := if d in E then d else var c :| c in E; c;
      SumWithout(g, E, c);
      SumWithout(h, E, c);
      SumChange(g, h, E - {c}, d);
    }
  }

  lemma {:induction false} SumMonotone(g: IdxGraph, E: set<Edge>, F: set<Edge>)
    requires E <= F
    ensures SumW(g, E) <= SumW(g, F)
    decreases F
  {
    if F != {} {
      var c :| c in F;
      SumWithout(g, F, c);
      if c in E {
        SumWithout(g, E, c);
      }
      SumMonotone(g, E - {c}, F - {c});
      if c !in E {
        assert E - {c} == E;
      }
    }
  }

  lemma {:induction false} SumUnion(g: IdxGraph, E: set<Edge>, F: set<Edge>)
    requires E !! F
    ensures SumW(g, E + F) == SumW(g, E) + SumW(g, F)
    decreases E
  {
    if E == {} {
      assert E + F == F;
    } else {
      var c :| c in E;
      SumWithout(g, E, c);
      SumWithout(g, E + F, c);
      SumUnion(g, E - {c}, F);
      assert E + F - {c} == (E - {c}) + F;
    }
  }

  lemma {:induction false} SumZero(g: IdxGraph, E: set<Edge>)
    ensures SumW(g, E) == 0 <==> forall e :: e in E ==> Weight(g, e) == 0
    decreases E
  {
    if E != {} {
      var c :| c in E;
      SumWithout(g, E, c);
      SumZero(g, E - {c});
    }
  }

  ghost function AllPairs(n: nat): set<Edge> {
    set u, v | u in NodesBelow(n) && v in NodesBelow(n) :: Edge(u, v)
  }

  /** The weight of the edges that leave a set of nodes. */
  ghost function CutWeight(g: IdxGraph, inside: set<nat>): nat {
    SumW(g, Leaving(AllPairs(|g|), inside))
  }

  lemma CutWeightOfEdges(g: IdxGraph, inside: set<nat>)
    requires WellFormed(g)
    ensures CutWeight(g, inside) == SumW(g, Leaving(Edges(g), inside))
  {
    var pairs, edges := Leaving(AllPairs(|g|), inside), Leaving(Edges(g), inside);
    forall e | e in edges
      ensures e in pairs
    {
      EdgesAreWeighted(g, e);
    }
    assert edges + (pairs - edges) == pairs;
    SumUnion(g, edges, pairs - edges);
    forall e | e in pairs - edges
      ensures Weight(g, e) == 0
    {
      EdgesAreWeighted(g, e);
    }
    SumZero(g, pairs - edges);
  }
}
