/**
 * The graph that is cut: the control flow between the instructions of a function, and an edge from every
 * way out of it (a return or a call) back to every way in (its entry or what follows a call).
 */
module SpeculativeCfg {
  import opened Graphs
  import opened Fences

  /** An instruction in layout order. The terminators name the instructions that their successor blocks start with. */
  datatype Inst = Inst(terminator: bool, succs: set<nat>, call: bool, ret: bool)

  type Code = seq<Inst>

  /** The first instruction of a block. */
  predicate StartsBlock(code: Code, i: nat)
    requires i < |code|
  {
    i == 0 || code[i - 1].terminator
  }

  /** Blocks end in a terminator, branches lead to starts of blocks, and none leads to the entry. */
  ghost predicate WellFormedCode(code: Code) {
    && |code| > 0 && code[|code| - 1].terminator
    && (forall i, t :: 0 <= i < |code| && t in code[i].succs ==> 0 < t < |code|)
    && (forall i, t :: 0 <= i < |code| && t in code[i].succs ==> StartsBlock(code, t))
    && (forall i :: 0 <= i < |code| && code[i].ret ==> code[i].terminator && code[i].succs == {} && !code[i].call)
  }

  /** The first instructions of the successor blocks for a terminator, else the next instruction. */
  function Successors(code: Code, i: nat): set<nat>
    requires i < |code|
  {
    if code[i].terminator then code[i].succs else {i + 1}
  }

  /** The previous instruction of the block, or the terminators of the predecessor blocks. */
  function Predecessors(code: Code, i: nat): set<nat>
    requires i < |code|
  {
    if !StartsBlock(code, i) then {i - 1}
    else set j | 0 <= j < |code| && code[j].terminator && i in code[j].succs
  }

  /** The two directions agree. */
  lemma PredecessorsAreConverse(code: Code, i: nat, j: nat)
    requires WellFormedCode(code) && i < |code| && j < |code|
    ensures j in Successors(code, i) <==> i in Predecessors(code, j)
  {
  }

  function ControlFlow(code: Code): set<Edge> {
    set i, j | 0 <= i < |code| && j in Successors(code, i) :: Edge(i, j)
  }

  predicate IsExit(code: Code, i: nat)
    requires i < |code|
  {
    code[i].ret || code[i].call
  }

  /** The entry, or what follows a call in its block. */
  predicate IsEntry(code: Code, i: nat)
    requires i < |code|
  {
    i == 0 || (!StartsBlock(code, i) && code[i - 1].call)
  }

  function BackEdges(code: Code): set<Edge> {
    set i, j | 0 <= i < |code| && 0 <= j < |code| && IsExit(code, i) && IsEntry(code, j) && i != j :: Edge(i, j)
  }

  lemma InstructionsOf(code: Code, e: Edge)
    requires WellFormedCode(code)
    ensures e in ControlFlow(code) + BackEdges(code) ==> e.src < |code| && e.dst < |code|
  {
    if e in ControlFlow(code) {
      assert e.src < |code| && e.dst in Successors(code, e.src);
      if code[e.src].terminator {
        assert e.dst in code[e.src].succs;
      } else {
        assert e.src != |code| - 1 && e.dst == e.src + 1;
      }
    }
  }

  /** The control-flow edges into an instruction are those from its predecessors. */
  lemma IntoArePredecessors(code: Code, i: nat)
    requires WellFormedCode(code) && i < |code|
    ensures Into(ControlFlow(code), i) == set j | j in Predecessors(code, i) :: Edge(j, i)
  {
    forall e
      ensures e in Into(ControlFlow(code), i) <==> e in set j | j in Predecessors(code, i) :: Edge(j, i)
    {
      if e in Into(ControlFlow(code), i) {
        PredecessorsAreConverse(code, e.src, i);
      }
      if e in set j | j in Predecessors(code, i) :: Edge(j, i) {
        PredecessorsAreConverse(code, e.src, i);
      }
    }
  }

  lemma InsideHasOnePredecessor(code: Code, d: nat)
    requires WellFormedCode(code) && d < |code| && !StartsBlock(code, d)
    ensures !Multi(ControlFlow(code), d)
  {
    IntoArePredecessors(code, d);
    assert Predecessors(code, d) == {d - 1};
    assert Into(ControlFlow(code), d) == {Edge(d - 1, d)};
  }

  /** No edge into the target of a back edge is ever split: it has at most one predecessor. */
  lemma EntriesHaveOnePredecessor(code: Code, e: Edge)
    requires WellFormedCode(code) && e in BackEdges(code)
    ensures !Multi(ControlFlow(code), e.dst)
  {
    var d := e.dst;
    if d == 0 {
      IntoArePredecessors(code, d);
      assert Predecessors(code, d) == {};
      assert Into(ControlFlow(code), d) == {};
    } else {
      InsideHasOnePredecessor(code, d);
    }
  }

  /** Only the first instruction of a block can have several predecessors. */
  lemma SplitTargetsStartBlocks(code: Code, d: nat)
    requires WellFormedCode(code) && d < |code| && Multi(ControlFlow(code), d)
    ensures StartsBlock(code, d)
  {
    if !StartsBlock(code, d) {
      InsideHasOnePredecessor(code, d);
    }
  }

  /** The weight of an edge: the given one for control flow, 1 for an edge that only leads back. */
  function EdgeWeight(code: Code, weight: Edge -> u32, e: Edge): u32 {
    if e in ControlFlow(code) then weight(e)
    else if e in BackEdges(code) then 1
    else 0
  }

  function FlowRow(code: Code, weight: Edge -> u32, i: nat): Dsts
    requires i < |code|
  {
    map j | j in Successors(code, i) :: weight(Edge(i, j))
  }

  /** The control-flow edges of each instruction, then the back edges that are not there yet. */
  method BuildGraph(code: Code, weight: Edge -> u32) returns (g: IdxGraph)
    requires WellFormedCode(code) && forall e :: e in ControlFlow(code) ==> weight(e) > 0
    ensures |g| == |code| && WellFormed(g)
    ensures Edges(g) == ControlFlow(code) + BackEdges(code)
    ensures forall e :: Weight(g, e) == EdgeWeight(code, weight, e)
    ensures forall e :: e in ControlFlow(code) ==> Weight(g, e) == weight(e)
    ensures forall e :: e in BackEdges(code) - ControlFlow(code) ==> Weight(g, e) == 1
  {
    g := seq(|code|, i requires 0 <= i < |code| => FlowRow(code, weight, i));
    for i := 0 to |code|
      invariant |g| == |code|
      invariant forall u :: 0 <= u < i ==> g[u] == FullRow(code, weight, u)
      invariant forall u :: i <= u < |code| ==> g[u] == FlowRow(code, weight, u)
    {
      if IsExit(code, i) {
        var row := AddBackEdges(code, weight, i);
        g := g[i := row];
      } else {
        assert FullRow(code, weight, i) == FlowRow(code, weight, i);
      }
    }
    RowsAreGraph(code, weight, g);
  }

  /** All edges out of an instruction. */
  function FullRow(code: Code, weight: Edge -> u32, i: nat): Dsts
    requires i < |code|
  {
    map j | j in Successors(code, i) + BackTargets(code, i) :: if j in Successors(code, i) then weight(Edge(i, j)) else 1
  }

  function BackTargets(code: Code, i: nat): set<nat>
    requires i < |code|
  {
    if IsExit(code, i) then set j | 0 <= j < |code| && IsEntry(code, j) && i != j else {}
  }

  /** Emplaces an edge of weight 1 to every entry; a weight that is there stays. */
  method AddBackEdges(code: Code, weight: Edge -> u32, i: nat) returns (row: Dsts)
    requires i < |code| && IsExit(code, i)
    ensures row == FullRow(code, weight, i)
  {
    row := FlowRow(code, weight, i);
    for j := 0 to |code|
      invariant row.Keys == Successors(code, i) + set t | t in BackTargets(code, i) && t < j
      invariant forall t :: t in row ==> row[t] == if t in Successors(code, i) then weight(Edge(i, t)) else 1
    {
      if IsEntry(code, j) && i != j && j !in row {
        row := row[j := 1];
      }
    }
  }

  lemma RowsAreGraph(code: Code, weight: Edge -> u32, g: IdxGraph)
    requires WellFormedCode(code) && forall e :: e in ControlFlow(code) ==> weight(e) > 0
    requires |g| == |code| && forall u :: 0 <= u < |code| ==> g[u] == FullRow(code, weight, u)
    ensures WellFormed(g) && Edges(g) == ControlFlow(code) + BackEdges(code)
    ensures forall e :: Weight(g, e) == EdgeWeight(code, weight, e)
  {
    forall e: Edge
      ensures Weight(g, e) == EdgeWeight(code, weight, e)
      ensures e in Edges(g) <==> e in ControlFlow(code) + BackEdges(code)
    {
      if e.src < |g| {
        assert g[e.src] == FullRow(code, weight, e.src);
        assert e.dst in Successors(code, e.src) <==> e in ControlFlow(code);
        assert e.dst in BackTargets(code, e.src) <==> e in BackEdges(code);
      }
    }
    forall u, v | 0 <= u < |g| && v in g[u]
      ensures v < |g| && g[u][v] > 0
    {
      assert Edge(u, v) in Edges(g);
      InstructionsOf(code, Edge(u, v));
      if v in Successors(code, u) {
        assert Edge(u, v) in ControlFlow(code);
      }
    }
  }
}
