/**
 * The whole pass over a function: the graph is cut, the cut is checked over the control flow, and the fences go in.
 * Afterwards no execution passes through a waypoint list without a fence, even if the function is left and entered
 * again on the way.
 */
module Mitigation {
  import opened Graphs
  import opened Waypoints
  import opened Weights
  import opened Residual
  import opened EdgeLists
  import opened Runs
  import opened SimpleWalks
  import opened IrreducibleLists
  import opened Optimize
  import opened DriverRuns
  import opened MinCutGreedy
  import opened Fences
  import opened SpeculativeCfg
  import opened Executions
  import opened Reentry

  /** The graph of the control flow alone. */
  method FlowGraph(code: Code) returns (g: IdxGraph)
    requires WellFormedCode(code)
    ensures |g| == |code| && WellFormed(g) && Edges(g) == ControlFlow(code)
  {
    g := seq(|code|, i requires 0 <= i < |code| => FlowRow(code, (e: Edge) => 1, i));
    forall e: Edge
      ensures e in Edges(g) <==> e in ControlFlow(code)
    {
      if e.src < |g| {
        assert e.dst in Successors(code, e.src) <==> e in ControlFlow(code);
      }
    }
    forall u, v | 0 <= u < |g| && v in g[u]
      ensures v < |g| && g[u][v] > 0
    {
      assert Edge(u, v) in Edges(g);
      InstructionsOf(code, Edge(u, v));
    }
  }

  /** The staged search over the control flow that is not cut, as a check of the result before the fences go in. */
  method CheckFunction(code: Code, cut: set<Edge>, sts: seq<Waypoints>) returns (ok: bool)
    requires WellFormedCode(code) && ListsOf(code, sts)
    ensures ok <==> forall st :: st in sts ==> Separated(ControlFlow(code) - cut, st)
  {
    var g := FlowGraph(code);
    ok := CheckCut(cut, sts, g);
  }

  ghost predicate ListsOf(code: Code, sts: seq<Waypoints>) {
    forall st :: st in sts ==> |st| >= 2 && forall j, v :: 0 <= j < |st| && v in st[j] ==> v < |code|
  }

  lemma SeparatedInFlow(code: Code, cut: set<Edge>, W: Waypoints)
    requires Separated(ControlFlow(code) + BackEdges(code) - cut, W)
    ensures Separated(ControlFlow(code) - cut, W)
  {
    forall p | IsWalk(ControlFlow(code) - cut, p)
      ensures !Admits(p, W)
    {
      WalkWithMoreEdges(ControlFlow(code) - cut, ControlFlow(code) + BackEdges(code) - cut, p);
    }
  }

  // ---------------------------------------------------------------------------------
  // Executions of the fenced function

  /** What is known of the control flow of a function that was fenced. */
  ghost predicate WellFenced(code: Code, cfg: set<Edge>, entry: nat, size: nat, fences: set<nat>, cut: set<Edge>) {
    && Faithful(ControlFlow(code), |code|, cfg, size, fences) && FreshFences(|code|, size, fences)
    && cut !! cfg
    && (if exists c :: c in cut && c.dst == 0 then entry in fences else entry == 0)
    && (forall e, c :: e in cfg && e.src < |code| && e.dst < |code| && c in cut && c.dst == e.dst ==>
          exists w :: w != e.src && Edge(w, e.dst) in ControlFlow(code))
  }

  ghost function FencedFunctionOf(code: Code, cfg: set<Edge>, entry: nat): Func {
    Func(cfg, entry, FunctionOf(code).calls, FunctionOf(code).rets)
  }

  /** A step of the fenced function between two instructions is an edge that is not cut, or a repetition. */
  lemma UnfencedStep(code: Code, cfg: set<Edge>, entry: nat, size: nat, fences: set<nat>, cut: set<Edge>, loose: bool, a: nat, b: nat)
    requires WellFormedCode(code) && PlainCalls(code) && WellFenced(code, cfg, entry, size, fences, cut)
    requires Links(FencedFunctionOf(code, cfg, entry), loose, a, b) && a < |code| && b < |code|
    ensures Edge(a, b) in ControlFlow(code) + BackEdges(code) - cut || (a == b && Edge(a, b) !in ControlFlow(code))
  {
    var f := FencedFunctionOf(code, cfg, entry);
    if Edge(a, b) in cfg {
      EdgeIsOriginal(ControlFlow(code), |code|, cfg, size, fences, Edge(a, b));
    } else {
      LeavesAndEnters(code, a);
      if b == entry {
        assert b == 0 && forall c :: c in cut ==> c.dst != 0;
        assert a != b ==> Edge(a, b) in BackEdges(code);
      } else {
        var c :| c in f.calls && Reachable(f, c) && Edge(c, b) in cfg;
        EdgeIsOriginal(ControlFlow(code), |code|, cfg, size, fences, Edge(c, b));
        BehindIsEntry(code, c, b);
        assert forall e :: e in cut && e.dst == b ==> exists w :: w != c && Edge(w, b) in ControlFlow(code);
        assert a != b ==> Edge(a, b) in BackEdges(code);
      }
    }
  }

  /** An instruction that leaves the function has no control flow to itself. */
  lemma LeavesAndEnters(code: Code, a: nat)
    requires WellFormedCode(code) && PlainCalls(code) && a < |code| && IsExit(code, a)
    ensures Edge(a, a) !in ControlFlow(code)
  {
  }

  lemma {:induction false} OriginalsOfAll(p: seq<nat>, n: nat)
    requires forall i :: 0 <= i < |p| ==> p[i] < n
    ensures Originals(p, n) == p
  {
    if p != [] {
      OriginalsOfAll(p[..|p| - 1], n);
    }
  }

  lemma VisitedAreNodes(f: Func, loose: bool, x: seq<State>, size: nat)
    requires Execution(f, loose, x) && f.entry < size && forall e :: e in f.flow ==> e.src < size && e.dst < size
    ensures forall i :: 0 <= i < |Visited(x)| ==> Visited(x)[i] < size
  {
    ExecutionLinks(f, loose, x);
    forall i | 0 <= i < |Visited(x)|
      ensures Visited(x)[i] < size
    {
      var v := Visited(x)[i];
      assert Reachable(f, v);
      var p :| IsWalk(f.flow, p) && p[0] == f.entry && p[|p| - 1] == v;
      if |p| > 1 {
        assert Hop(p, |p| - 2) in f.flow;
      }
    }
  }

  /** An execution of the fenced function visits the waypoints in order; immediate repetitions count once. */
  ghost predicate PassesThrough(code: Code, cfg: set<Edge>, entry: nat, loose: bool, x: seq<State>, st: Waypoints) {
    && Execution(FencedFunctionOf(code, cfg, entry), loose, x)
    && Admits(Collapse(Originals(Visited(x), |code|), ControlFlow(code)), st)
  }

  /** If the cut separates the waypoints, an execution that has visited them in order has crossed a fence. */
  lemma FencesStopExecutions(code: Code, cfg: set<Edge>, entry: nat, size: nat, fences: set<nat>, cut: set<Edge>,
                             st: Waypoints, loose: bool, x: seq<State>)
    requires WellFormedCode(code) && PlainCalls(code) && WellFenced(code, cfg, entry, size, fences, cut)
    requires |st| >= 1 && Separated(ControlFlow(code) + BackEdges(code) - cut, st)
    requires PassesThrough(code, cfg, entry, loose, x, st)
    ensures Crosses(Visited(x), fences)
  {
    var f, p, E := FencedFunctionOf(code, cfg, entry), Visited(x), ControlFlow(code) + BackEdges(code) - cut;
    if !Crosses(p, fences) {
      VisitedAreNodes(f, loose, x, size);
      forall i | 0 <= i < |p|
        ensures p[i] < |code|
      {
        assert p[i] in p;
      }
      OriginalsOfAll(p, |code|);
      AdmittedIsWalk(Collapse(p, ControlFlow(code)), st);
      ExecutionLinks(f, loose, x);
      forall i | 0 <= i < |p| - 1
        ensures Hop(p, i) in E || (p[i] == p[i + 1] && Hop(p, i) !in ControlFlow(code))
      {
        UnfencedStep(code, cfg, entry, size, fences, cut, loose, p[i], p[i + 1]);
      }
      CollapseIsWalk(p, ControlFlow(code), E);
    }
  }

  // ---------------------------------------------------------------------------------
  // The pass

  lemma CutEdgesAreGone(E0: set<Edge>, n: nat, E: set<Edge>, size: nat, fences: set<nat>, cut: set<Edge>)
    requires Faithful(E0, n, E, size, fences) && Fenced(E, n, fences, cut) && cut <= E0
    ensures cut !! E
  {
    forall e | e in cut
      ensures e !in E
    {
      if e in E {
        EdgeIsOriginal(E0, n, E, size, fences, e);
      }
    }
  }

  /** Back edges lead to instructions with one predecessor, and no control flow leads to the entry. */
  lemma ReadyToFence(code: Code)
    requires WellFormedCode(code)
    ensures forall e :: e in ControlFlow(code) + BackEdges(code) ==> e.src < |code| && e.dst < |code|
    ensures forall e :: e in BackEdges(code) ==> !Multi(ControlFlow(code), e.dst)
    ensures forall u :: Edge(u, 0) !in ControlFlow(code)
  {
    forall e | e in ControlFlow(code) + BackEdges(code)
      ensures e.src < |code| && e.dst < |code| && (e in BackEdges(code) ==> !Multi(ControlFlow(code), e.dst))
    {
      InstructionsOf(code, e);
      if e in BackEdges(code) {
        EntriesHaveOnePredecessor(code, e);
      }
    }
  }

  /** A fence on each edge of the cut. */
  method PlaceFences(code: Code, cut: seq<Edge>) returns (f: FencedFunction)
    requires WellFormedCode(code) && NoDuplicates(cut) && ToSet(cut) <= ControlFlow(code) + BackEdges(code)
    ensures fresh(f) && f.size == |code| + |cut| && FreshFences(|code|, f.size, f.fences)
    ensures Faithful(ControlFlow(code), |code|, f.cfg, f.size, f.fences)
    ensures Faithful(ControlFlow(code) + BackEdges(code), |code|, f.cfg + f.back, f.size, f.fences)
    ensures Fenced(f.cfg + f.back, |code|, f.fences, ToSet(cut))
    ensures WellFenced(code, f.cfg, f.entry, f.size, f.fences, ToSet(cut))
    ensures forall e :: e in ControlFlow(code) && Spared(ControlFlow(code), ToSet(cut), e) ==> e in f.cfg
    ensures forall e :: e in ControlFlow(code) + BackEdges(code) && (forall c :: c in cut ==> c.dst != e.dst) ==> e in f.cfg + f.back
  {
    ReadyToFence(code);
    f := new FencedFunction(ControlFlow(code), BackEdges(code), |code|, 0);
    f.Mitigate(cut);
    assert ToSet(cut) !! f.cfg by {
      CutEdgesAreGone(ControlFlow(code) + BackEdges(code), |code|, f.cfg + f.back, f.size, f.fences, ToSet(cut));
    }
  }

  /** A walk through the function over edges that need no fence. */
  ghost predicate LeftAlone(code: Code, cut: set<Edge>, p: seq<nat>) {
    && IsWalk(ControlFlow(code), p) && (forall v :: v in p ==> v < |code|)
    && forall i :: 0 <= i < |p| - 1 ==> Spared(ControlFlow(code), cut, Hop(p, i))
  }

  /**
   * Cuts the graph of the function for the given waypoint lists and puts fences on the cut. After that an execution,
   * or any walk over the graph, that has passed through one of the lists has crossed a fence. Without the fences the
   * function has the control flow it had before, and so has the graph with its back edges. Edges that need no fence
   * are left alone.
   */
  method MitigateFunction(code: Code, weight: Edge -> u32, sts: seq<Waypoints>, fuel: nat)
    returns (done: bool, f: FencedFunction, cut: seq<Edge>, ghost g: IdxGraph, ghost lists: seq<Waypoints>, ghost exact: bool,
             ghost d: Driver)
    requires WellFormedCode(code) && forall e :: e in ControlFlow(code) ==> weight(e) > 0
    requires ListsOf(code, sts)
    ensures Edges(g) == ControlFlow(code) + BackEdges(code) && forall e :: Weight(g, e) == EdgeWeight(code, weight, e)
    ensures (OnlyPairs(sts) || (|sts| <= 1 && AllSingle(sts))) && PairsFit(g) && fuel > SumW(g, Edges(g)) ==> done
    ensures ToSet(cut) <= Edges(g) && NoDuplicates(cut)
    ensures Simplified(g, sts, lists, exact) && Irreducible(Edges(g), lists)
    ensures done ==> ListsFor(lists) && IsDriver(g, lists, d) && Ended(lists, d) && |d.cuts| == |lists| && cut == Flat(d.cuts)
    ensures done && d.mode.Replace? ==> forall j :: 0 <= j < |lists| ==>
              && CutOfRun(Minus(g, Others(d.cuts, j)), lists[j], ToSet(d.cuts[j]))
              && (SingletonMiddles(lists[j]) && PairsFit(g) ==> NearMinimal(Minus(g, Others(d.cuts, j)), lists[j], ToSet(d.cuts[j])))
    ensures AllSeparated(Edges(g), sts) ==> cut == []
    ensures done ==> forall st :: st in sts ==> Separates(g, ToSet(cut), st)
    ensures fresh(f) && f.size == |code| + |cut| && FreshFences(|code|, f.size, f.fences)
    ensures SameButFresh(ControlFlow(code), |code|, f.cfg)
    ensures SameButFresh(ControlFlow(code) + BackEdges(code), |code|, f.cfg + f.back)
    ensures forall p :: LeftAlone(code, ToSet(cut), p) ==> IsWalk(f.cfg, p) && !Crosses(p, f.fences)
    ensures done ==> forall st, q :: st in sts && IsWalk(f.cfg + f.back, q) && Admits(Originals(q, |code|), st) ==>
              Crosses(q, f.fences)
    ensures done && PlainCalls(code) ==> forall st, loose, x ::
              st in sts && PassesThrough(code, f.cfg, f.entry, loose, x, st) ==> Crosses(Visited(x), f.fences)
  {
    var graph;
    done, cut, graph, lists, exact, d := CutFunction(code, weight, sts, fuel);
    g := graph;
    if done {
      var ok := CheckFunction(code, ToSet(cut), sts);
      forall st | st in sts
        ensures Separated(ControlFlow(code) - ToSet(cut), st)
      {
        SeparatedInFlow(code, ToSet(cut), st);
      }
      assert ok;
    }
    f := PlaceFences(code, cut);
    FaithfulWalks(ControlFlow(code), |code|, f.cfg, f.size, f.fences);
    FaithfulWalks(ControlFlow(code) + BackEdges(code), |code|, f.cfg + f.back, f.size, f.fences);
    forall p | LeftAlone(code, ToSet(cut), p)
      ensures IsWalk(f.cfg, p) && !Crosses(p, f.fences)
    {
      SparedWalk(ControlFlow(code), |code|, f.cfg, f.fences, ToSet(cut), p);
    }
    if done {
      forall st, q | st in sts && IsWalk(f.cfg + f.back, q) && Admits(Originals(q, |code|), st)
        ensures Crosses(q, f.fences)
      {
        FencesStopWaypointWalks(Edges(g), |code|, f.cfg + f.back, f.size, f.fences, ToSet(cut), st, q);
      }
      forall st, loose, x | PlainCalls(code) && st in sts && PassesThrough(code, f.cfg, f.entry, loose, x, st)
        ensures Crosses(Visited(x), f.fences)
      {
        FencesStopExecutions(code, f.cfg, f.entry, f.size, f.fences, ToSet(cut), st, loose, x);
      }
    }
  }

  /** The graph of the function and its cut. */
  method CutFunction(code: Code, weight: Edge -> u32, sts: seq<Waypoints>, fuel: nat)
    returns (done: bool, cut: seq<Edge>, g: IdxGraph, ghost lists: seq<Waypoints>, ghost exact: bool, ghost d: Driver)
    requires WellFormedCode(code) && forall e :: e in ControlFlow(code) ==> weight(e) > 0
    requires ListsOf(code, sts)
    ensures Edges(g) == ControlFlow(code) + BackEdges(code) && forall e :: Weight(g, e) == EdgeWeight(code, weight, e)
    ensures (OnlyPairs(sts) || (|sts| <= 1 && AllSingle(sts))) && PairsFit(g) && fuel > SumW(g, Edges(g)) ==> done
    ensures ToSet(cut) <= Edges(g) && NoDuplicates(cut)
    ensures Simplified(g, sts, lists, exact) && Irreducible(Edges(g), lists)
    ensures done ==> ListsFor(lists) && IsDriver(g, lists, d) && Ended(lists, d) && |d.cuts| == |lists| && cut == Flat(d.cuts)
    ensures done && d.mode.Replace? ==> forall j :: 0 <= j < |lists| ==>
              && CutOfRun(Minus(g, Others(d.cuts, j)), lists[j], ToSet(d.cuts[j]))
              && (SingletonMiddles(lists[j]) && PairsFit(g) ==> NearMinimal(Minus(g, Others(d.cuts, j)), lists[j], ToSet(d.cuts[j])))
    ensures AllSeparated(Edges(g), sts) ==> cut == []
    ensures done ==> forall st :: st in sts ==> Separates(g, ToSet(cut), st)
  {
    g := BuildGraph(code, weight);
    var alg := new MinCut(g);
    for i := 0 to |sts|
      invariant fresh(alg) && alg.g == g && alg.sts == sts[..i] && alg.cutEdges == []
    {
      alg.AddSt(sts[i]);
    }
    assert sts[..|sts|] == sts;
    done, lists, exact, d := alg.Run(fuel);
    cut := alg.cutEdges;
    assert cut[0..] == cut;
    assert done ==> [] + Flat(d.cuts) == Flat(d.cuts);
  }
}
