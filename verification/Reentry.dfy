/**
 * What the edges of the graph that is cut stand for: two instructions that can follow each other while the function
 * is left and entered again, with calls pending.
 */
module Reentry {
  import opened Graphs
  import opened SpeculativeCfg
  import opened Fences
  import opened Executions

  /** The function as its callers and callees see it. */
  ghost function FunctionOf(code: Code): Func {
    Func(set i, j | 0 <= i < |code| && j in (if code[i].terminator then code[i].succs else {i + 1}) :: Edge(i, j), 0,
         set i | 0 <= i < |code| && code[i].call, set i | 0 <= i < |code| && code[i].ret)
  }

  /** No call ends its block. */
  ghost predicate PlainCalls(code: Code) {
    forall i :: 0 <= i < |code| && code[i].call ==> !code[i].terminator
  }

  lemma FunctionFlows(code: Code)
    requires WellFormedCode(code)
    ensures FunctionOf(code).flow == ControlFlow(code) && RetsEnd(FunctionOf(code))
    ensures forall e :: e in ControlFlow(code) ==> e.src < |code| && e.dst < |code|
  {
    forall e
      ensures e in FunctionOf(code).flow <==> e in ControlFlow(code)
      ensures e in ControlFlow(code) ==> e.src < |code| && e.dst < |code| && !code[e.src].ret
    {
      InstructionsOf(code, e);
    }
  }

  lemma ReachableIsInstruction(code: Code, v: nat)
    requires WellFormedCode(code) && Reachable(FunctionOf(code), v)
    ensures v < |code| && (v > 0 ==> exists u :: Reachable(FunctionOf(code), u) && Edge(u, v) in ControlFlow(code))
  {
    FunctionFlows(code);
    var f := FunctionOf(code);
    var p :| IsWalk(f.flow, p) && p[0] == f.entry && p[|p| - 1] == v;
    if |p| > 1 {
      var n := |p| - 1;
      assert Hop(p, n - 1) in f.flow;
      SliceOfWalk(f.flow, p, 0, n);
      var q := p[0..n];
      assert q[0] == f.entry && q[|q| - 1] == p[n - 1];
      assert Reachable(f, p[n - 1]) && Edge(p[n - 1], v) in ControlFlow(code);
    }
  }

  /** Behind a call that does not end its block is the next instruction. */
  lemma BehindIsEntry(code: Code, c: nat, y: nat)
    requires WellFormedCode(code) && c < |code| && code[c].call && !code[c].terminator && Edge(c, y) in ControlFlow(code)
    ensures y == c + 1 < |code| && IsEntry(code, y) && !StartsBlock(code, y)
    ensures forall w :: Edge(w, y) in ControlFlow(code) ==> w == c
  {
    InstructionsOf(code, Edge(c, y));
    assert !StartsBlock(code, y);
    IntoArePredecessors(code, y);
    forall w | Edge(w, y) in ControlFlow(code)
      ensures w == c
    {
      assert Edge(w, y) in Into(ControlFlow(code), y);
    }
  }

  lemma EntryIsBehind(code: Code, y: nat)
    requires WellFormedCode(code) && y < |code| && IsEntry(code, y) && y > 0 && Reachable(FunctionOf(code), y)
    ensures BehindCall(FunctionOf(code), y)
  {
    FunctionFlows(code);
    ReachableIsInstruction(code, y);
    var u :| Reachable(FunctionOf(code), u) && Edge(u, y) in ControlFlow(code);
    IntoArePredecessors(code, y);
    assert Edge(u, y) in Into(ControlFlow(code), y);
    assert u == y - 1;
  }

  /**
   * With calls pending, two different instructions can follow each other exactly if the graph has an edge between
   * them and both are reached from the start of the function. An instruction can also follow itself without an edge,
   * if it leaves the function and is where the function is entered.
   */
  lemma EdgesAreStepsIff(code: Code, a: nat, b: nat)
    requires WellFormedCode(code) && PlainCalls(code)
    ensures var f := FunctionOf(code);
            Follows(f, true, a, b) <==>
            && Reachable(f, a) && Reachable(f, b)
            && (Edge(a, b) in ControlFlow(code) + BackEdges(code)
                || (a == b && a in f.calls + f.rets && (a == 0 || BehindCall(f, a))))
  {
    var f := FunctionOf(code);
    FunctionFlows(code);
    FollowsIff(f, true, a, b);
    if Reachable(f, a) && Links(f, true, a, b) {
      LinkIsEdge(code, true, a, b);
    }
    if Reachable(f, a) && Reachable(f, b) && Edge(a, b) in BackEdges(code) {
      BackEdgeIsLink(code, a, b);
    }
  }

  lemma LinkIsEdge(code: Code, loose: bool, a: nat, b: nat)
    requires WellFormedCode(code) && PlainCalls(code) && Reachable(FunctionOf(code), a) && Links(FunctionOf(code), loose, a, b)
    ensures var f := FunctionOf(code);
            && Reachable(f, b)
            && (Edge(a, b) in ControlFlow(code) + BackEdges(code)
                || (a == b && a in f.calls + f.rets && (a == 0 || BehindCall(f, a))))
  {
    var f := FunctionOf(code);
    FunctionFlows(code);
    ReachableIsInstruction(code, a);
    if Edge(a, b) in f.flow {
      ReachableNext(f, a, b);
    } else if b == 0 {
      EntryIsReachable(f);
    } else {
      var c :| c in f.calls && Reachable(f, c) && Edge(c, b) in f.flow;
      ReachableNext(f, c, b);
      BehindIsEntry(code, c, b);
    }
  }

  lemma BackEdgeIsLink(code: Code, a: nat, b: nat)
    requires WellFormedCode(code) && Reachable(FunctionOf(code), b) && Edge(a, b) in BackEdges(code)
    ensures Links(FunctionOf(code), true, a, b)
  {
    if b > 0 {
      EntryIsBehind(code, b);
    }
  }

  /**
   * When the code outside comes back only behind the last pending call, all these steps are left but those from a call
   * to behind another call.
   */
  lemma StrictStepsIff(code: Code, a: nat, b: nat)
    requires WellFormedCode(code) && PlainCalls(code) && a != b
    ensures var f := FunctionOf(code);
            Follows(f, false, a, b) <==>
            && Reachable(f, a) && Reachable(f, b) && Edge(a, b) in ControlFlow(code) + BackEdges(code)
            && !(a in f.calls && b != 0 && b != a + 1)
  {
    var f := FunctionOf(code);
    FunctionFlows(code);
    FollowsIff(f, false, a, b);
    if Reachable(f, a) && Links(f, false, a, b) {
      LinkIsEdge(code, false, a, b);
      if a in f.calls && b != 0 {
        BehindIsEntry(code, a, b);
      }
    }
    if Reachable(f, a) && Reachable(f, b) && Edge(a, b) in BackEdges(code) {
      BackEdgeIsLink(code, a, b);
      if a in f.calls && b == a + 1 {
        assert Edge(a, b) in f.flow;
      }
    }
  }

  /** Instruction y is where a call that ends its block comes back to, and x leaves the function. */
  ghost predicate ComesBack(code: Code, x: nat, y: nat) {
    var f := FunctionOf(code);
    && x in f.calls + f.rets && Reachable(f, x)
    && exists c :: c in f.calls && Reachable(f, c) && code[c].terminator && Edge(c, y) in f.flow
  }

  /**
   * In general, with calls that end their blocks, the graph has all such steps exactly if control flow leads to where
   * such a call comes back from all that leaves the function.
   */
  lemma AllStepsAreEdgesIff(code: Code)
    requires WellFormedCode(code)
    ensures (forall a, b :: Follows(FunctionOf(code), true, a, b) && a != b ==> Edge(a, b) in ControlFlow(code) + BackEdges(code))
       <==> (forall a, b :: ComesBack(code, a, b) && a != b ==> Edge(a, b) in ControlFlow(code))
  {
    var f := FunctionOf(code);
    FunctionFlows(code);
    forall a, b | ComesBack(code, a, b)
      ensures Follows(f, true, a, b) && Edge(a, b) !in BackEdges(code)
    {
      var c :| c in f.calls && Reachable(f, c) && code[c].terminator && Edge(c, b) in f.flow;
      assert BehindCall(f, b);
      BehindIsTaken(f, true, a, b);
      assert StartsBlock(code, b) && b > 0;
    }
    if forall a, b :: ComesBack(code, a, b) && a != b ==> Edge(a, b) in ControlFlow(code) {
      forall a, b | Follows(f, true, a, b) && a != b
        ensures Edge(a, b) in ControlFlow(code) + BackEdges(code)
      {
        FollowsIff(f, true, a, b);
        if !ComesBack(code, a, b) {
          GeneralLink(code, a, b);
        }
      }
    }
  }

  lemma PlainBehind(code: Code, c: nat, a: nat, b: nat)
    requires var f := FunctionOf(code);
             && a in f.calls + f.rets && Reachable(f, a) && !ComesBack(code, a, b)
             && c in f.calls && Reachable(f, c) && Edge(c, b) in f.flow
    ensures !code[c].terminator
  {
  }

  lemma GeneralLink(code: Code, a: nat, b: nat)
    requires WellFormedCode(code) && Reachable(FunctionOf(code), a) && Links(FunctionOf(code), true, a, b) && a != b
    requires !ComesBack(code, a, b)
    ensures Edge(a, b) in ControlFlow(code) + BackEdges(code)
  {
    var f := FunctionOf(code);
    FunctionFlows(code);
    ReachableIsInstruction(code, a);
    if Edge(a, b) !in f.flow && b != 0 {
      var c :| c in f.calls && Reachable(f, c) && Edge(c, b) in f.flow;
      PlainBehind(code, c, a, b);
      BehindIsEntry(code, c, b);
    }
  }

  // ---------------------------------------------------------------------------------
  // Two steps that the graph has no edge for

  /** A call, then a return. */
  const CALL_AND_RETURN: Code := [Inst(false, {}, true, false), Inst(true, {}, false, true)]

  /** A function that starts with a call can come from the call to the same call; the graph has no such edge. */
  lemma SelfStepIsNoEdge()
    ensures WellFormedCode(CALL_AND_RETURN) && PlainCalls(CALL_AND_RETURN)
    ensures Follows(FunctionOf(CALL_AND_RETURN), false, 0, 0)
    ensures Edge(0, 0) !in ControlFlow(CALL_AND_RETURN) + BackEdges(CALL_AND_RETURN)
  {
    var f := FunctionOf(CALL_AND_RETURN);
    FunctionFlows(CALL_AND_RETURN);
    EntryIsReachable(f);
    FollowsIff(f, false, 0, 0);
  }

  /** A call that ends its block, and behind it an instruction and a return. */
  const CALL_ENDS_BLOCK: Code := [Inst(true, {1}, true, false), Inst(false, {}, false, false), Inst(true, {}, false, true)]

  /** The return can come back behind the call; the graph has no such edge, since no previous instruction is a call. */
  lemma CallAtBlockEndIsNoEdge()
    ensures WellFormedCode(CALL_ENDS_BLOCK) && !PlainCalls(CALL_ENDS_BLOCK)
    ensures Follows(FunctionOf(CALL_ENDS_BLOCK), false, 2, 1)
    ensures Edge(2, 1) !in ControlFlow(CALL_ENDS_BLOCK) + BackEdges(CALL_ENDS_BLOCK)
  {
    var f := FunctionOf(CALL_ENDS_BLOCK);
    FunctionFlows(CALL_ENDS_BLOCK);
    EntryIsReachable(f);
    assert Edge(0, 1) in f.flow && Edge(1, 2) in f.flow;
    ReachableNext(f, 0, 1);
    ReachableNext(f, 1, 2);
    assert BehindCall(f, 1);
    FollowsIff(f, false, 2, 1);
  }
}
