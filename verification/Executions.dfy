/**
 * Executions of a function that others call and that calls others. Only its own instructions are seen. While it is
 * left, by a call or a return, the code outside may enter it anew or come back behind a pending call.
 */
module Executions {
  import opened Graphs

  /** The control flow of a function, where it starts, and which instructions leave it. */
  datatype Func = Func(flow: set<Edge>, entry: nat, calls: set<nat>, rets: set<nat>)

  /** At an instruction or outside of the function, with the calls that have not come back yet. */
  datatype State = In(node: nat, pending: seq<nat>) | Out(pending: seq<nat>)

  /**
   * One step. The code outside comes back behind the last pending call. If it is `loose`, it may come back behind any
   * pending call, as it does by a long jump or when a return is predicted wrongly.
   */
  ghost predicate Next(f: Func, loose: bool, s: State, t: State) {
    match s
    case In(x, S) =>
      if x in f.calls then t == Out(S + [x])
      else if x in f.rets then t == Out(S)
      else t.In? && t.pending == S && Edge(x, t.node) in f.flow
    case Out(S) =>
      t == In(f.entry, S) || (t.In? && exists k: nat :: Resumes(f, loose, S, k, t.node, t.pending))
  }

  /** Back behind the k-th pending call. */
  ghost predicate Resumes(f: Func, loose: bool, S: seq<nat>, k: nat, y: nat, T: seq<nat>) {
    k < |S| && (loose || k == |S| - 1) && T == S[..k] && Edge(S[k], y) in f.flow
  }

  /** From one state to another. */
  ghost predicate RunFrom(f: Func, loose: bool, x: seq<State>, s: State) {
    && |x| >= 1 && x[0] == s
    && forall i :: 0 <= i < |x| - 1 ==> Next(f, loose, x[i], x[i + 1])
  }

  /** An execution starts outside, with no call pending. */
  ghost predicate Execution(f: Func, loose: bool, x: seq<State>) {
    RunFrom(f, loose, x, Out([]))
  }

  /** The instructions visited. */
  function Visited(x: seq<State>): (p: seq<nat>)
    ensures |p| <= |x|
  {
    if x == [] then []
    else
      var last := x[|x| - 1];
      Visited(x[..|x| - 1]) + (if last.In? then [last.node] else [])
  }

  /** Some execution goes from instruction a to instruction b with none in between. */
  ghost predicate Follows(f: Func, loose: bool, a: nat, b: nat) {
    exists x, i :: FollowsAt(f, loose, a, b, x, i)
  }

  ghost predicate FollowsAt(f: Func, loose: bool, a: nat, b: nat, x: seq<State>, i: nat) {
    Execution(f, loose, x) && i + 1 < |Visited(x)| && Visited(x)[i] == a && Visited(x)[i + 1] == b
  }

  // ---------------------------------------------------------------------------------
  // Which instructions can follow each other

  /** Control flow leads from the start to the instruction. */
  ghost predicate Reachable(f: Func, v: nat) {
    exists p :: IsWalk(f.flow, p) && p[0] == f.entry && p[|p| - 1] == v
  }

  ghost predicate BehindCall(f: Func, y: nat) {
    exists c :: c in f.calls && Reachable(f, c) && Edge(c, y) in f.flow
  }

  /** How instruction b can come after instruction a. */
  ghost predicate Links(f: Func, loose: bool, a: nat, b: nat) {
    if a in f.calls then b == f.entry || Edge(a, b) in f.flow || (loose && BehindCall(f, b))
    else if a in f.rets then b == f.entry || BehindCall(f, b)
    else Edge(a, b) in f.flow
  }

  lemma ReachableNext(f: Func, a: nat, b: nat)
    requires Reachable(f, a) && Edge(a, b) in f.flow
    ensures Reachable(f, b)
  {
    var p :| IsWalk(f.flow, p) && p[0] == f.entry && p[|p| - 1] == a;
    EdgeIsWalk(f.flow, a, b);
    JoinWalks(f.flow, p, [a, b]);
    var q := p + [a, b][1..];
    assert q[0] == f.entry && q[|q| - 1] == b;
  }

  lemma EntryIsReachable(f: Func)
    ensures Reachable(f, f.entry)
  {
    assert IsWalk(f.flow, [f.entry]);
  }

  /** What holds of the state after an execution: every pending call was visited, and outside, what was left last. */
  ghost predicate StateOk(f: Func, s: State, p: seq<nat>) {
    && (forall i :: 0 <= i < |s.pending| ==> s.pending[i] in f.calls && Reachable(f, s.pending[i]))
    && (forall i :: 0 <= i < |p| ==> Reachable(f, p[i]))
    && (s.In? ==> p != [] && p[|p| - 1] == s.node)
    && (s.Out? && p != [] ==> p[|p| - 1] in f.calls + f.rets)
    && (s.Out? && p != [] && p[|p| - 1] in f.calls ==> s.pending != [] && s.pending[|s.pending| - 1] == p[|p| - 1])
    && (s.Out? && p == [] ==> s.pending == [])
  }

  ghost predicate AllLinked(f: Func, loose: bool, p: seq<nat>) {
    forall i :: 0 <= i < |p| - 1 ==> Links(f, loose, p[i], p[i + 1])
  }

  lemma LinkedNext(f: Func, loose: bool, p: seq<nat>, y: nat)
    requires AllLinked(f, loose, p) && (p != [] ==> Links(f, loose, p[|p| - 1], y))
    ensures AllLinked(f, loose, p + [y])
  {
    var q := p + [y];
    forall i | 0 <= i < |q| - 1
      ensures Links(f, loose, q[i], q[i + 1])
    {
      if i < |p| - 1 {
        assert q[i] == p[i] && q[i + 1] == p[i + 1];
      }
    }
  }

  /** One step keeps all this, and links the instruction it comes to with the one before. */
  lemma StepLinks(f: Func, loose: bool, s: State, t: State, p: seq<nat>)
    requires StateOk(f, s, p) && AllLinked(f, loose, p) && Next(f, loose, s, t)
    ensures var q := p + if t.In? then [t.node] else [];
            StateOk(f, t, q) && AllLinked(f, loose, q)
  {
    if t.Out? {
      assert p + [] == p;
    } else {
      ArrivalLinks(f, loose, s, t, p);
      LinkedNext(f, loose, p, t.node);
    }
  }

  lemma ArrivalLinks(f: Func, loose: bool, s: State, t: State, p: seq<nat>)
    requires StateOk(f, s, p) && Next(f, loose, s, t) && t.In?
    ensures Reachable(f, t.node) && (p != [] ==> Links(f, loose, p[|p| - 1], t.node))
    ensures forall i :: 0 <= i < |t.pending| ==> t.pending[i] in f.calls && Reachable(f, t.pending[i])
  {
    if s.In? {
      ReachableNext(f, s.node, t.node);
    } else if t == In(f.entry, s.pending) {
      EntryIsReachable(f);
    } else {
      var k: nat :| Resumes(f, loose, s.pending, k, t.node, t.pending);
      ReachableNext(f, s.pending[k], t.node);
      assert BehindCall(f, t.node);
    }
  }

  lemma {:induction false} ExecutionLinks(f: Func, loose: bool, x: seq<State>)
    requires Execution(f, loose, x)
    ensures StateOk(f, x[|x| - 1], Visited(x)) && AllLinked(f, loose, Visited(x))
  {
    var n := |x| - 1;
    if n == 0 {
      assert x[..0] == [];
      assert Visited(x) == [];
    } else {
      var y := x[..n];
      assert Execution(f, loose, y);
      ExecutionLinks(f, loose, y);
      assert Next(f, loose, x[n - 1], x[n]);
      StepLinks(f, loose, y[n - 1], x[n], Visited(y));
    }
  }

  // ---------------------------------------------------------------------------------
  // Executions that go there

  lemma VisitedJoin(x: seq<State>, t: State)
    ensures Visited(x + [t]) == Visited(x) + if t.In? then [t.node] else []
  {
    assert (x + [t])[..|x|] == x;
  }

  lemma RunNext(f: Func, loose: bool, x: seq<State>, s: State, t: State)
    requires RunFrom(f, loose, x, s) && Next(f, loose, x[|x| - 1], t)
    ensures RunFrom(f, loose, x + [t], s)
    ensures Visited(x + [t]) == Visited(x) + if t.In? then [t.node] else []
  {
    VisitedJoin(x, t);
    var y := x + [t];
    forall i | 0 <= i < |y| - 1
      ensures Next(f, loose, y[i], y[i + 1])
    {
      assert i < |x| - 1 ==> y[i] == x[i] && y[i + 1] == x[i + 1];
    }
  }

  /** Returns end the function: no control flow leads on from them. */
  ghost predicate RetsEnd(f: Func) {
    f.calls !! f.rets && forall e :: e in f.flow ==> e.src !in f.rets
  }

  /** An execution can follow one edge of the control flow; calls on the way come back at once. */
  lemma FollowEdge(f: Func, loose: bool, x: seq<State>, b: nat) returns (y: seq<State>)
    requires RetsEnd(f) && Execution(f, loose, x) && x[|x| - 1].In? && Edge(x[|x| - 1].node, b) in f.flow
    ensures Execution(f, loose, y) && y[|y| - 1] == In(b, x[|x| - 1].pending) && Visited(y) == Visited(x) + [b]
  {
    var a, S := x[|x| - 1].node, x[|x| - 1].pending;
    y := x;
    if a in f.calls {
      RunNext(f, loose, y, Out([]), Out(S + [a]));
      y := y + [Out(S + [a])];
      assert (S + [a])[..|S|] == S && (S + [a])[|S|] == a;
      assert Resumes(f, loose, S + [a], |S|, b, S);
    }
    RunNext(f, loose, y, Out([]), In(b, S));
    y := y + [In(b, S)];
  }

  /** From the start of the function to any instruction that control flow reaches. */
  lemma {:induction false} FollowWalk(f: Func, loose: bool, x: seq<State>, p: seq<nat>) returns (y: seq<State>)
    requires RetsEnd(f) && Execution(f, loose, x) && x[|x| - 1].Out? && IsWalk(f.flow, p) && p[0] == f.entry
    ensures Execution(f, loose, y) && y[|y| - 1] == In(p[|p| - 1], x[|x| - 1].pending)
    ensures Visited(y) != [] && Visited(y)[|Visited(y)| - 1] == p[|p| - 1]
    decreases |p|
  {
    var S := x[|x| - 1].pending;
    if |p| == 1 {
      RunNext(f, loose, x, Out([]), In(f.entry, S));
      y := x + [In(f.entry, S)];
    } else {
      var n := |p| - 1;
      SliceOfWalk(f.flow, p, 0, n);
      assert p[0..n] == p[..n];
      y := FollowWalk(f, loose, x, p[..n]);
      assert Hop(p, n - 1) in f.flow;
      y := FollowEdge(f, loose, y, p[n]);
    }
  }

  lemma ReachIt(f: Func, loose: bool, x: seq<State>, v: nat) returns (y: seq<State>)
    requires RetsEnd(f) && Execution(f, loose, x) && x[|x| - 1].Out? && Reachable(f, v)
    ensures Execution(f, loose, y) && y[|y| - 1] == In(v, x[|x| - 1].pending)
    ensures Visited(y) != [] && Visited(y)[|Visited(y)| - 1] == v
  {
    var p :| IsWalk(f.flow, p) && p[0] == f.entry && p[|p| - 1] == v;
    y := FollowWalk(f, loose, x, p);
  }

  lemma LeaveIt(f: Func, loose: bool, x: seq<State>) returns (y: seq<State>)
    requires Execution(f, loose, x) && x[|x| - 1].In? && x[|x| - 1].node in f.calls + f.rets
    ensures Execution(f, loose, y) && Visited(y) == Visited(x)
    ensures var s := x[|x| - 1];
            y[|y| - 1] == Out(if s.node in f.calls then s.pending + [s.node] else s.pending)
  {
    var s := x[|x| - 1];
    var t := Out(if s.node in f.calls then s.pending + [s.node] else s.pending);
    RunNext(f, loose, x, Out([]), t);
    y := x + [t];
  }

  lemma ArrivesNext(f: Func, loose: bool, x: seq<State>, a: nat, t: State)
    requires Execution(f, loose, x) && Visited(x) != [] && Visited(x)[|Visited(x)| - 1] == a
    requires Next(f, loose, x[|x| - 1], t) && t.In?
    ensures Follows(f, loose, a, t.node)
  {
    RunNext(f, loose, x, Out([]), t);
    var y := x + [t];
    assert FollowsAt(f, loose, a, t.node, y, |Visited(x)| - 1);
  }

  /** Every link from an instruction that control flow reaches is taken by some execution. */
  lemma LinkIsTaken(f: Func, loose: bool, a: nat, b: nat)
    requires RetsEnd(f) && Reachable(f, a) && Links(f, loose, a, b)
    ensures Follows(f, loose, a, b)
  {
    var start := [Out([])];
    assert Execution(f, loose, start);
    if Edge(a, b) in f.flow {
      var x := ReachIt(f, loose, start, a);
      var n := |Visited(x)|;
      var y := FollowEdge(f, loose, x, b);
      assert FollowsAt(f, loose, a, b, y, n - 1);
    } else if b == f.entry {
      var x := ReachIt(f, loose, start, a);
      var y := LeaveIt(f, loose, x);
      ArrivesNext(f, loose, y, a, In(f.entry, y[|y| - 1].pending));
    } else {
      BehindIsTaken(f, loose, a, b);
    }
  }

  /** With call c pending, the function is entered once more, runs to `a` and is left there; then it goes on behind c. */
  lemma BehindIsTaken(f: Func, loose: bool, a: nat, b: nat)
    requires RetsEnd(f) && Reachable(f, a) && BehindCall(f, b)
    requires a in f.rets || (loose && a in f.calls)
    ensures Follows(f, loose, a, b)
  {
    var c :| c in f.calls && Reachable(f, c) && Edge(c, b) in f.flow;
    var start := [Out([])];
    assert Execution(f, loose, start);
    var x := ReachIt(f, loose, start, c);
    x := LeaveIt(f, loose, x);
    assert [] + [c] == [c];
    x := ReachIt(f, loose, x, a);
    x := LeaveIt(f, loose, x);
    var S := x[|x| - 1].pending;
    assert S[0] == c && S[..0] == [] && (a in f.rets ==> S == [c]);
    assert Resumes(f, loose, S, 0, b, []);
    ArrivesNext(f, loose, x, a, In(b, []));
  }

  /** Exactly which instructions can follow each other. */
  lemma FollowsIff(f: Func, loose: bool, a: nat, b: nat)
    requires RetsEnd(f)
    ensures Follows(f, loose, a, b) <==> Reachable(f, a) && Links(f, loose, a, b)
  {
    if Follows(f, loose, a, b) {
      var x, i :| FollowsAt(f, loose, a, b, x, i);
      ExecutionLinks(f, loose, x);
    }
    if Reachable(f, a) && Links(f, loose, a, b) {
      LinkIsTaken(f, loose, a, b);
    }
  }

  // ---------------------------------------------------------------------------------
  // Repetitions

  /** The visits without those that repeat the one before although no control flow leads from it to itself. */
  function Collapse(p: seq<nat>, flow: set<Edge>): (r: seq<nat>)
    ensures p != [] ==> r != [] && r[|r| - 1] == p[|p| - 1]
  {
    var n := |p| - 1;
    if |p| <= 1 then p
    else if p[n] == p[n - 1] && Edge(p[n], p[n]) !in flow then Collapse(p[..n], flow)
    else Collapse(p[..n], flow) + [p[n]]
  }

  lemma {:induction false} CollapseIsWalk(p: seq<nat>, flow: set<Edge>, E: set<Edge>)
    requires p != []
    requires forall i :: 0 <= i < |p| - 1 ==> Hop(p, i) in E || (p[i] == p[i + 1] && Hop(p, i) !in flow)
    ensures IsWalk(E, Collapse(p, flow))
  {
    var n := |p| - 1;
    if n > 0 {
      var q := p[..n];
      forall i | 0 <= i < |q| - 1
        ensures Hop(q, i) in E || (q[i] == q[i + 1] && Hop(q, i) !in flow)
      {
        assert Hop(q, i) == Hop(p, i) && q[i] == p[i] && q[i + 1] == p[i + 1];
      }
      CollapseIsWalk(q, flow, E);
      var r := Collapse(q, flow);
      assert r[|r| - 1] == p[n - 1] && Hop(p, n - 1) == Edge(p[n - 1], p[n]);
      if !(p[n] == p[n - 1] && Edge(p[n], p[n]) !in flow) {
        EdgeIsWalk(E, p[n - 1], p[n]);
        JoinWalks(E, r, [p[n - 1], p[n]]);
        assert r + [p[n - 1], p[n]][1..] == r + [p[n]];
      }
    }
  }
}
