/**
 * What a constant address is: a pointer whose possible addresses do not depend on what the program loads, gets back
 * from calls, selects at the end of a block, converts from integers or uses as an index.
 */
module AddressMeaning {
  import opened PointerValues

  /** Where a value is used: for an argument in one of the calls of its function, outside of the program, or in a query. */
  datatype Site = Operand(arg: ArgId, call: nat) | Outside(arg: ArgId) | Query

  /** A part of such a value, by the way down to it. */
  datatype Place = Place(site: Site, path: seq<nat>)

  /** What stays: the addresses of constants and allocations, fixed offsets, and an address for each argument to start with. */
  datatype World = World(layout: Place -> int, seed: ArgId -> int)

  /** What changes from run to run. */
  type Valuation = Place -> int

  function Below(at: Place, i: nat): Place {
    Place(at.site, at.path + [i])
  }

  function Shifted(S: set<int>, offset: int): set<int> {
    set s | s in S :: s + offset
  }

  /** The addresses that a value can have. */
  ghost function Addresses(v: Value, at: Place, w: World, args: ArgId -> set<int>, run: Valuation): set<int> {
    match v
    case Arg(a) => args(a)
    case Phi => {run(at)}
    case Call => {run(at)}
    case Load => {run(at)}
    case IntToPtr => {run(at)}
    case Constant => {w.layout(at)}
    case Alloca => {w.layout(at)}
    case Gep(constantIndices, base) =>
      Shifted(Addresses(base, Below(at, 0), w, args, run), if constantIndices then w.layout(at) else run(at))
    case BitCast(fromPointer, operand) => if fromPointer then Addresses(operand, Below(at, 0), w, args, run) else {run(at)}
    case Select(t, f) => Addresses(t, Below(at, 0), w, args, run) + Addresses(f, Below(at, 1), w, args, run)
    case ExtractElement(constantVector, constantIndex) => {if constantVector && constantIndex then w.layout(at) else run(at)}
    case ExtractValue(constantAggregate) => {if constantAggregate then w.layout(at) else run(at)}
  }

  /** The value has the same addresses in every run, whatever its arguments can be. */
  ghost predicate Steady(v: Value) {
    forall at, w, args, run, run' :: Addresses(v, at, w, args, run) == Addresses(v, at, w, args, run')
  }

  /** The addresses that an argument can have after n levels of calls; those of an unknown caller can be any. */
  ghost function Flow(p: Program, w: World, run: Valuation, n: nat, a: ArgId): set<int>
    decreases n, 1, 0
  {
    if n == 0 then {w.seed(a)}
    else if !Candidate(p, a) then {run(Place(Outside(a), []))}
    else {w.seed(a)} + AllHanded(p, w, run, n - 1, a, |p[a.fn].calls|)
  }

  /** What the first k calls hand to the argument. */
  ghost function AllHanded(p: Program, w: World, run: Valuation, n: nat, a: ArgId, k: nat): (r: set<int>)
    requires Candidate(p, a) && k <= |p[a.fn].calls|
    ensures forall c, x :: 0 <= c < k && x in Handed(p, w, run, n, a, c) ==> x in r
    decreases n, 3, k
  {
    if k == 0 then {} else AllHanded(p, w, run, n, a, k - 1) + Handed(p, w, run, n, a, k - 1)
  }

  /** What one call hands to the argument. */
  ghost function Handed(p: Program, w: World, run: Valuation, n: nat, a: ArgId, c: nat): set<int>
    requires Candidate(p, a) && c < |p[a.fn].calls|
    decreases n, 2, 0
  {
    var call, at := p[a.fn].calls[c], Place(Operand(a, c), []);
    if a.no < |call| then Addresses(call[a.no], at, w, b => Flow(p, w, run, n, b), run) else {run(at)}
  }

  /** The argument has the same addresses in every run, over any number of levels of calls. */
  ghost predicate SteadyArg(p: Program, a: ArgId) {
    forall w, run, run', n :: Flow(p, w, run, n, a) == Flow(p, w, run', n, a)
  }

  ghost function QueryAddresses(p: Program, w: World, run: Valuation, n: nat, v: Value): set<int> {
    Addresses(v, Place(Query, []), w, b => Flow(p, w, run, n, b), run)
  }

  /** A value in the program has the same addresses in every run. */
  ghost predicate SteadyValue(p: Program, v: Value) {
    forall w, run, run', n :: QueryAddresses(p, w, run, n, v) == QueryAddresses(p, w, run', n, v)
  }

  // ---------------------------------------------------------------------------------
  // Nothing changes what is not spoilt

  /** A value that is not spoilt has addresses that depend on its arguments only. */
  lemma {:induction false} UnspoiltStays(v: Value, at: Place, w: World, args: ArgId -> set<int>, args': ArgId -> set<int>,
                                         run: Valuation, run': Valuation)
    requires !Spoilt(v) && forall b :: b in ArgsOf(v) ==> args(b) == args'(b)
    ensures Addresses(v, at, w, args, run) == Addresses(v, at, w, args', run')
  {
    match v
    case Arg(a) =>
      assert a in ArgsOf(v);
    case Gep(_, base) =>
      UnspoiltStays(base, Below(at, 0), w, args, args', run, run');
    case BitCast(_, operand) =>
      UnspoiltStays(operand, Below(at, 0), w, args, args', run, run');
    case Select(t, f) =>
      UnspoiltStays(t, Below(at, 0), w, args, args', run, run');
      UnspoiltStays(f, Below(at, 1), w, args, args', run, run');
    case _ =>
  }

  lemma {:induction false} IrrefutableStays(p: Program, w: World, run: Valuation, run': Valuation, n: nat, a: ArgId)
    requires !Refutable(p, a)
    ensures Flow(p, w, run, n, a) == Flow(p, w, run', n, a)
    decreases n, 0
  {
    if !Candidate(p, a) {
      assert Refutation(p, [a]);
    } else if n > 0 {
      var m := n - 1;
      forall c | 0 <= c < |p[a.fn].calls|
        ensures Handed(p, w, run, m, a, c) == Handed(p, w, run', m, a, c)
      {
        IrrefutableHanded(p, w, run, run', m, a, c);
      }
      AllHandedSame(p, w, run, run', m, a, |p[a.fn].calls|);
    }
  }

  lemma {:induction false} AllHandedSame(p: Program, w: World, run: Valuation, run': Valuation, n: nat, a: ArgId, k: nat)
    requires Candidate(p, a) && k <= |p[a.fn].calls|
    requires forall c :: 0 <= c < k ==> Handed(p, w, run, n, a, c) == Handed(p, w, run', n, a, c)
    ensures AllHanded(p, w, run, n, a, k) == AllHanded(p, w, run', n, a, k)
    decreases k
  {
    if k > 0 {
      AllHandedSame(p, w, run, run', n, a, k - 1);
    }
  }

  lemma {:induction false} AllHandedFrom(p: Program, w: World, run: Valuation, n: nat, a: ArgId, k: nat, x: int)
    requires Candidate(p, a) && k <= |p[a.fn].calls| && x in AllHanded(p, w, run, n, a, k)
    ensures exists c :: 0 <= c < k && x in Handed(p, w, run, n, a, c)
    decreases k
  {
    if x !in Handed(p, w, run, n, a, k - 1) {
      AllHandedFrom(p, w, run, n, a, k - 1, x);
    }
  }

  lemma {:induction false} IrrefutableHanded(p: Program, w: World, run: Valuation, run': Valuation, n: nat, a: ArgId, c: nat)
    requires !Refutable(p, a) && Candidate(p, a) && c < |p[a.fn].calls|
    ensures Handed(p, w, run, n, a, c) == Handed(p, w, run', n, a, c)
    decreases n, 1
  {
    var call := p[a.fn].calls[c];
    if SpoiltBy(call, a.no) {
      assert Refutation(p, [a]);
    } else {
      forall b | b in ArgsOf(call[a.no])
        ensures Flow(p, w, run, n, b) == Flow(p, w, run', n, b)
      {
        assert PassedBy(call, a.no, b);
        if Refutable(p, b) {
          RefutableBack(p, a, b);
        } else {
          IrrefutableStays(p, w, run, run', n, b);
        }
      }
      UnspoiltStays(call[a.no], Place(Operand(a, c), []), w, b => Flow(p, w, run, n, b), b => Flow(p, w, run', n, b), run, run');
    }
  }

  // ---------------------------------------------------------------------------------
  // Two runs tell what is spoilt: everything that changes is 0 in one of them and 1 in the other

  ghost function Zero(): World {
    World(at => 0, a => 0)
  }

  ghost function Always(x: int): Valuation {
    at => x
  }

  ghost predicate NonNegative(S: set<int>) {
    (exists x :: x in S) && forall x :: x in S ==> x >= 0
  }

  ghost predicate Positive(S: set<int>) {
    exists x :: x in S && x >= 1
  }

  lemma {:induction false} AllZero(v: Value, at: Place, args: ArgId -> set<int>)
    requires forall b :: args(b) == {0}
    ensures Addresses(v, at, Zero(), args, Always(0)) == {0}
  {
    match v
    case Gep(_, base) =>
      AllZero(base, Below(at, 0), args);
    case BitCast(_, operand) =>
      AllZero(operand, Below(at, 0), args);
    case Select(t, f) =>
      AllZero(t, Below(at, 0), args);
      AllZero(f, Below(at, 1), args);
    case _ =>
  }

  /** In the other run, what is spoilt shows, and so does an argument that can be positive. */
  lemma {:induction false} SpoiltShows(v: Value, at: Place, args: ArgId -> set<int>)
    requires forall b :: NonNegative(args(b))
    ensures NonNegative(Addresses(v, at, Zero(), args, Always(1)))
    ensures Spoilt(v) || (exists b :: b in ArgsOf(v) && Positive(args(b))) ==>
              Positive(Addresses(v, at, Zero(), args, Always(1)))
  {
    match v
    case Arg(a) =>
      assert NonNegative(args(a));
    case Gep(constantIndices, base) =>
      SpoiltShows(base, Below(at, 0), args);
      ShiftedShows(Addresses(base, Below(at, 0), Zero(), args, Always(1)), if constantIndices then 0 else 1);
    case BitCast(_, operand) =>
      SpoiltShows(operand, Below(at, 0), args);
    case Select(t, f) =>
      SpoiltShows(t, Below(at, 0), args);
      SpoiltShows(f, Below(at, 1), args);
    case _ =>
  }

  lemma ShiftedShows(S: set<int>, offset: nat)
    requires NonNegative(S)
    ensures NonNegative(Shifted(S, offset)) && (offset >= 1 || Positive(S) ==> Positive(Shifted(S, offset)))
  {
    var s :| s in S;
    assert s + offset in Shifted(S, offset);
    if x :| x in S && x >= 1 {
      assert x + offset in Shifted(S, offset);
    }
  }

  /** The argument can be positive in the run in which everything that changes is 1. */
  ghost predicate Shows(p: Program, n: nat, a: ArgId) {
    Positive(Flow(p, Zero(), Always(1), n, a))
  }

  lemma {:induction false} FlowZero(p: Program, n: nat, a: ArgId)
    ensures Flow(p, Zero(), Always(0), n, a) == {0}
    decreases n
  {
    if n > 0 && Candidate(p, a) {
      var m := n - 1;
      forall b
        ensures Flow(p, Zero(), Always(0), m, b) == {0}
      {
        FlowZero(p, m, b);
      }
      forall c | 0 <= c < |p[a.fn].calls|
        ensures Handed(p, Zero(), Always(0), m, a, c) == {0}
      {
        var call := p[a.fn].calls[c];
        if a.no < |call| {
          AllZero(call[a.no], Place(Operand(a, c), []), b => Flow(p, Zero(), Always(0), m, b));
        }
      }
      forall x | x in AllHanded(p, Zero(), Always(0), m, a, |p[a.fn].calls|)
        ensures x == 0
      {
        AllHandedFrom(p, Zero(), Always(0), m, a, |p[a.fn].calls|, x);
      }
    }
  }

  lemma {:induction false} FlowNonNegative(p: Program, n: nat, a: ArgId)
    ensures NonNegative(Flow(p, Zero(), Always(1), n, a))
    decreases n
  {
    if n > 0 && Candidate(p, a) {
      assert 0 in Flow(p, Zero(), Always(1), n, a);
      var m := n - 1;
      forall b
        ensures NonNegative(Flow(p, Zero(), Always(1), m, b))
      {
        FlowNonNegative(p, m, b);
      }
      forall c | 0 <= c < |p[a.fn].calls|
        ensures NonNegative(Handed(p, Zero(), Always(1), m, a, c))
      {
        var call := p[a.fn].calls[c];
        if a.no < |call| {
          SpoiltShows(call[a.no], Place(Operand(a, c), []), b => Flow(p, Zero(), Always(1), m, b));
        }
      }
      forall x | x in AllHanded(p, Zero(), Always(1), m, a, |p[a.fn].calls|)
        ensures x >= 0
      {
        AllHandedFrom(p, Zero(), Always(1), m, a, |p[a.fn].calls|, x);
      }
    } else if n == 0 {
      assert 0 in Flow(p, Zero(), Always(1), n, a);
    }
  }

  /** A call that spoils the argument, or hands on one that can be positive, makes the argument positive. */
  lemma HandedShows(p: Program, n: nat, a: ArgId, c: nat)
    requires Candidate(p, a) && c < |p[a.fn].calls|
    requires SpoiltBy(p[a.fn].calls[c], a.no)
          || exists b :: PassedBy(p[a.fn].calls[c], a.no, b) && Shows(p, n, b)
    ensures Shows(p, n + 1, a)
  {
    var call := p[a.fn].calls[c];
    forall b
      ensures NonNegative(Flow(p, Zero(), Always(1), n, b))
    {
      FlowNonNegative(p, n, b);
    }
    if a.no < |call| {
      var args := b => Flow(p, Zero(), Always(1), n, b);
      SpoiltShows(call[a.no], Place(Operand(a, c), []), args);
      if b :| PassedBy(call, a.no, b) && Shows(p, n, b) {
        assert b in ArgsOf(call[a.no]) && Positive(args(b));
      }
    }
    assert Positive(Handed(p, Zero(), Always(1), n, a, c));
    var x :| x in Handed(p, Zero(), Always(1), n, a, c) && x >= 1;
    assert x in AllHanded(p, Zero(), Always(1), n, a, |p[a.fn].calls|);
    assert x in Flow(p, Zero(), Always(1), n + 1, a);
  }

  /** Down a chain of callers to a refuted argument, all arguments show it. */
  lemma {:induction false} RefutedShows(p: Program, chain: seq<ArgId>)
    requires Refutation(p, chain)
    ensures Shows(p, |chain|, chain[0])
    decreases |chain|
  {
    var a := chain[0];
    if |chain| == 1 {
      if !Candidate(p, a) {
        assert 1 in Flow(p, Zero(), Always(1), 1, a);
      } else {
        var c :| 0 <= c < |p[a.fn].calls| && SpoiltBy(p[a.fn].calls[c], a.no);
        HandedShows(p, 0, a, c);
      }
    } else {
      var rest := chain[1..];
      forall i | 0 <= i < |rest| - 1
        ensures Passes(p, rest[i], rest[i + 1])
      {
        assert Passes(p, chain[i + 1], chain[i + 1 + 1]);
      }
      RefutedShows(p, rest);
      assert Passes(p, chain[0], chain[0 + 1]);
      var c :| 0 <= c < |p[a.fn].calls| && PassedBy(p[a.fn].calls[c], a.no, chain[1]);
      HandedShows(p, |rest|, a, c);
    }
  }

  // ---------------------------------------------------------------------------------
  // What is spoilt, and what is refuted, is exactly what changes

  lemma SteadyIff(v: Value)
    ensures Steady(v) <==> !Spoilt(v)
  {
    if !Spoilt(v) {
      forall at, w, args, run, run'
        ensures Addresses(v, at, w, args, run) == Addresses(v, at, w, args, run')
      {
        UnspoiltStays(v, at, w, args, args, run, run');
      }
    } else {
      var at, args := Place(Query, []), (b: ArgId) => {0};
      AllZero(v, at, args);
      assert forall b :: 0 in args(b);
      SpoiltShows(v, at, args);
      assert Addresses(v, at, Zero(), args, Always(0)) != Addresses(v, at, Zero(), args, Always(1));
    }
  }

  lemma SteadyArgIff(p: Program, a: ArgId)
    ensures SteadyArg(p, a) <==> !Refutable(p, a)
  {
    if !Refutable(p, a) {
      forall w, run, run', n
        ensures Flow(p, w, run, n, a) == Flow(p, w, run', n, a)
      {
        IrrefutableStays(p, w, run, run', n, a);
      }
    } else {
      var chain :| Refutation(p, chain) && chain[0] == a;
      RefutedShows(p, chain);
      FlowZero(p, |chain|, a);
      assert Flow(p, Zero(), Always(0), |chain|, a) != Flow(p, Zero(), Always(1), |chain|, a);
    }
  }

  lemma SteadyValueIff(p: Program, v: Value)
    ensures SteadyValue(p, v) <==> !Spoilt(v) && forall b :: b in ArgsOf(v) ==> !Refutable(p, b)
  {
    if !Spoilt(v) && forall b :: b in ArgsOf(v) ==> !Refutable(p, b) {
      forall w, run, run', n
        ensures QueryAddresses(p, w, run, n, v) == QueryAddresses(p, w, run', n, v)
      {
        forall b | b in ArgsOf(v)
          ensures Flow(p, w, run, n, b) == Flow(p, w, run', n, b)
        {
          IrrefutableStays(p, w, run, run', n, b);
        }
        UnspoiltStays(v, Place(Query, []), w, b => Flow(p, w, run, n, b), b => Flow(p, w, run', n, b), run, run');
      }
    } else if Spoilt(v) {
      QueryShows(p, v, 0);
    } else {
      var b :| b in ArgsOf(v) && Refutable(p, b);
      var chain :| Refutation(p, chain) && chain[0] == b;
      RefutedShows(p, chain);
      assert Shows(p, |chain|, b);
      QueryShows(p, v, |chain|);
    }
  }

  lemma QueryShows(p: Program, v: Value, n: nat)
    requires Spoilt(v) || exists b :: b in ArgsOf(v) && Shows(p, n, b)
    ensures !SteadyValue(p, v)
  {
    forall b
      ensures Flow(p, Zero(), Always(0), n, b) == {0} && NonNegative(Flow(p, Zero(), Always(1), n, b))
    {
      FlowZero(p, n, b);
      FlowNonNegative(p, n, b);
    }
    var args := b => Flow(p, Zero(), Always(1), n, b);
    AllZero(v, Place(Query, []), b => Flow(p, Zero(), Always(0), n, b));
    SpoiltShows(v, Place(Query, []), args);
    if b :| b in ArgsOf(v) && Shows(p, n, b) {
      assert Positive(args(b));
    }
    assert QueryAddresses(p, Zero(), Always(0), n, v) != QueryAddresses(p, Zero(), Always(1), n, v);
  }
}
