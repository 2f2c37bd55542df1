/**
 * Which pointer arguments are constant addresses at every call: all are assumed to be, and arguments are
 * struck off until every call site that is left agrees.
 */
module ConstantAddress {
  import opened PointerValues
  import opened AddressMeaning

  // ---------------------------------------------------------------------------------
  // What the analysis keeps

  /** The arguments are candidates, and only refutable candidates are missing. */
  ghost predicate Sound(p: Program, args: ArgSets) {
    && (forall f: nat :: f in args <==> f < |p| && p[f].directCallOnly)
    && (forall a :: In(a, args) ==> Candidate(p, a))
    && (forall a :: Candidate(p, a) && !In(a, args) ==> Refutable(p, a))
  }

  /** No call site contradicts the arguments that are left. */
  ghost predicate Consistent(p: Program, args: ArgSets) {
    forall a, c :: In(a, args) && a.fn < |p| && 0 <= c < |p[a.fn].calls| ==> Agrees(p[a.fn].calls[c], a.no, args)
  }

  predicate Agrees(call: seq<Value>, no: nat, args: ArgSets) {
    no < |call| && IsConstantAddress(call[no], args)
  }

  /** An argument is struck off only with a refutation. */
  lemma DisagreementRefutes(p: Program, args: ArgSets, a: ArgId, c: nat)
    requires Sound(p, args) && Candidate(p, a) && c < |p[a.fn].calls| && !Agrees(p[a.fn].calls[c], a.no, args)
    ensures Refutable(p, a)
  {
    var call := p[a.fn].calls[c];
    if SpoiltBy(call, a.no) {
      assert Refutation(p, [a]);
    } else {
      ConstantIffArgs(call[a.no], args);
      var b :| b in ArgsOf(call[a.no]) && !In(b, args);
      assert PassedBy(call, a.no, b);
      if Candidate(p, b) {
        assert Refutable(p, b);
      } else {
        assert Refutation(p, [b]);
      }
      RefutableBack(p, a, b);
    }
  }

  /** From an argument that no call contradicts, chains only lead to such arguments. */
  lemma {:induction false} ConsistentIsNotRefuted(p: Program, other: ArgSets, chain: seq<ArgId>)
    requires Consistent(p, other) && (forall b :: In(b, other) ==> Candidate(p, b)) && |chain| >= 1 && In(chain[0], other)
    requires forall i :: 0 <= i < |chain| - 1 ==> Passes(p, chain[i], chain[i + 1])
    ensures !Refuted(p, chain[|chain| - 1])
  {
    var a := chain[0];
    if |chain| == 1 {
      forall c | 0 <= c < |p[a.fn].calls|
        ensures !SpoiltBy(p[a.fn].calls[c], a.no)
      {
        var call := p[a.fn].calls[c];
        assert Agrees(call, a.no, other);
        ConstantIffArgs(call[a.no], other);
      }
    } else {
      var b, rest := chain[1], chain[1..];
      assert Passes(p, chain[0], chain[0 + 1]);
      var c :| 0 <= c < |p[a.fn].calls| && PassedBy(p[a.fn].calls[c], a.no, b);
      assert Agrees(p[a.fn].calls[c], a.no, other);
      ConstantIffArgs(p[a.fn].calls[c][a.no], other);
      forall i | 0 <= i < |rest| - 1
        ensures Passes(p, rest[i], rest[i + 1])
      {
        assert Passes(p, chain[i + 1], chain[i + 1 + 1]);
      }
      ConsistentIsNotRefuted(p, other, rest);
    }
  }

  lemma SurvivorsAreIrrefutable(p: Program, args: ArgSets, a: ArgId)
    requires Sound(p, args) && Consistent(p, args)
    ensures In(a, args) <==> !Refutable(p, a)
  {
    if In(a, args) {
      if chain :| Refutation(p, chain) && chain[0] == a {
        ConsistentIsNotRefuted(p, args, chain);
      }
    } else if !Candidate(p, a) {
      assert Refutation(p, [a]);
    }
  }

  /** Whatever sets of candidates no call contradicts, they are within what survives. */
  lemma {:induction false} GreatestAmongConsistent(p: Program, args: ArgSets, other: ArgSets, a: ArgId)
    requires Sound(p, args) && Consistent(p, args) && Consistent(p, other)
    requires forall b :: In(b, other) ==> Candidate(p, b)
    requires In(a, other)
    ensures In(a, args)
  {
    if !In(a, args) {
      var chain :| Refutation(p, chain) && chain[0] == a;
      ConsistentIsNotRefuted(p, other, chain);
    }
  }

  // ---------------------------------------------------------------------------------
  // The analysis

  /** What is left, as a set of arguments. */
  ghost function Left(args: ArgSets): set<ArgId> {
    set f, n | f in args && n in args[f] :: ArgId(f, n)
  }

  /** Strikes off the arguments of one function that one of its calls contradicts. */
  method CheckCall(p: Program, args: ArgSets, f: nat, c: nat) returns (args': ArgSets)
    requires Sound(p, args) && f in args && c < |p[f].calls|
    ensures Sound(p, args') && Left(args') <= Left(args)
    ensures args' == args ==> forall no :: no in args[f] ==> Agrees(p[f].calls[c], no, args)
  {
    args' := args;
    var call, todo := p[f].calls[c], args[f];
    while todo != {}
      invariant todo <= args[f] && Sound(p, args') && Left(args') <= Left(args) && f in args' && todo <= args'[f]
      invariant args' == args ==> forall no :: no in args[f] - todo ==> Agrees(call, no, args)
      invariant args' != args ==> exists no :: no in args[f] && no !in todo && no !in args'[f]
    {
      var no :| no in todo;
      todo := todo - {no};
      assert In(ArgId(f, no), args');
      if no >= |call| || !IsConstantAddress(call[no], args') {
        DisagreementRefutes(p, args', ArgId(f, no), c);
        StrikeOff(p, args', ArgId(f, no));
        args' := args'[f := args'[f] - {no}];
      }
    }
  }

  lemma StrikeOff(p: Program, args: ArgSets, a: ArgId)
    requires Sound(p, args) && In(a, args) && Refutable(p, a)
    ensures var less := args[a.fn := args[a.fn] - {a.no}];
            Sound(p, less) && Left(less) <= Left(args)
  {
    var less := args[a.fn := args[a.fn] - {a.no}];
    forall b
      ensures In(b, less) <==> In(b, args) && b != a
    {
    }
  }

  lemma StrictlyLess(args: ArgSets, args': ArgSets)
    requires args'.Keys == args.Keys && Left(args') <= Left(args) && args' != args
    ensures Left(args') < Left(args)
  {
    var f :| f in args && args'[f] != args[f];
    forall n | n in args'[f]
      ensures n in args[f]
    {
      assert ArgId(f, n) in Left(args');
    }
    var n :| n in args[f] && n !in args'[f];
    assert ArgId(f, n) in Left(args) && ArgId(f, n) !in Left(args');
  }

  /** Strikes off, function by function and call by call. */
  method CheckAll(p: Program, args: ArgSets) returns (args': ArgSets)
    requires Sound(p, args)
    ensures Sound(p, args') && Left(args') <= Left(args)
    ensures args' == args ==> Consistent(p, args)
  {
    args' := args;
    for f := 0 to |p|
      invariant Sound(p, args') && Left(args') <= Left(args)
      invariant args' == args ==> forall a, c :: In(a, args) && a.fn < f && 0 <= c < |p[a.fn].calls| ==>
                  Agrees(p[a.fn].calls[c], a.no, args)
    {
      if p[f].directCallOnly {
        for c := 0 to |p[f].calls|
          invariant Sound(p, args') && Left(args') <= Left(args)
          invariant args' == args ==> forall a, c :: In(a, args) && a.fn < f && 0 <= c < |p[a.fn].calls| ==>
                      Agrees(p[a.fn].calls[c], a.no, args)
          invariant args' == args ==> forall no, c' :: no in args[f] && 0 <= c' < c ==> Agrees(p[f].calls[c'], no, args)
        {
          var next := CheckCall(p, args', f, c);
          if next != args' {
            StrictlyLess(args', next);
          }
          args' := next;
        }
      }
    }
  }

  class ConstantAddressAnalysis {
    const p: Program
    var caArgs: ArgSets

    constructor (p: Program)
      ensures this.p == p
    {
      this.p := p;
      caArgs := map[];
    }

    /** After a run: whether the addresses of the value are the same whatever is loaded, returned or computed. */
    predicate ConstantAddress(v: Value)
      reads this
      ensures (forall a :: In(a, caArgs) <==> !Refutable(p, a)) ==> (ConstantAddress(v) <==> SteadyValue(p, v))
    {
      ConstantIffArgs(v, caArgs);
      SteadyValueIff(p, v);
      IsConstantAddress(v, caArgs)
    }

    /**
     * From all pointer arguments of directly called functions down to a fixpoint, whatever is left of an
     * earlier run. An argument survives iff no chain of callers hands it something that is no constant
     * address, and the survivors are the greatest sets of candidates that no call contradicts.
     */
    method RunOnModule()
      modifies this
      ensures forall a :: In(a, caArgs) <==> !Refutable(p, a)
      ensures forall a :: In(a, caArgs) <==> SteadyArg(p, a)
      ensures Consistent(p, caArgs)
      ensures forall other, a :: (forall b :: In(b, other) ==> Candidate(p, b)) && Consistent(p, other) && In(a, other) ==>
                In(a, caArgs)
    {
      caArgs := map f: nat | f < |p| && p[f].directCallOnly :: p[f].pointerArgs;
      var changed := true;
      while changed
        invariant Sound(p, caArgs)
        invariant !changed ==> Consistent(p, caArgs)
        decreases Left(caArgs), changed
      {
        var bak := caArgs;
        caArgs := CheckAll(p, caArgs);
        changed := caArgs != bak;
        if changed {
          StrictlyLess(bak, caArgs);
        }
      }
      forall a
        ensures In(a, caArgs) <==> !Refutable(p, a)
      {
        SurvivorsAreIrrefutable(p, caArgs, a);
      }
      forall a
        ensures SteadyArg(p, a) <==> !Refutable(p, a)
      {
        SteadyArgIff(p, a);
      }
      forall other, a | (forall b :: In(b, other) ==> Candidate(p, b)) && Consistent(p, other) && In(a, other)
        ensures In(a, caArgs)
      {
        GreatestAmongConsistent(p, caArgs, other, a);
      }
    }
  }
}
