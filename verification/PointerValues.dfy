/** Pointer values as far as the analysis of constant addresses looks into them, and chains of callers. */
module PointerValues {

  datatype ArgId = ArgId(fn: nat, no: nat)

  /** A pointer value, as far as the analysis looks into it. */
  datatype Value =
    | Arg(id: ArgId)
    | Phi
    | Call
    | Load
    | IntToPtr
    | Constant
    | Alloca
    | Gep(constantIndices: bool, base: Value)
    | BitCast(fromPointer: bool, operand: Value)
    | Select(ifTrue: Value, ifFalse: Value)
    | ExtractElement(constantVector: bool, constantIndex: bool)
    | ExtractValue(constantAggregate: bool)

  /** A function with the operands of each of its calls; the calls are known if it is only called directly. */
  datatype Function = Function(directCallOnly: bool, pointerArgs: set<nat>, calls: seq<seq<Value>>)

  type Program = seq<Function>

  /** For each function that is only called directly, its arguments taken for constant addresses. */
  type ArgSets = map<nat, set<nat>>

  predicate IsConstantAddress(v: Value, args: ArgSets) {
    match v
    case Arg(a) => a.fn in args && a.no in args[a.fn]
    case Phi => false
    case Call => false
    case Load => false
    case IntToPtr => false
    case Constant => true
    case Alloca => true
    case Gep(constantIndices, base) => constantIndices && IsConstantAddress(base, args)
    case BitCast(fromPointer, operand) => fromPointer && IsConstantAddress(operand, args)
    case Select(t, f) => IsConstantAddress(t, args) && IsConstantAddress(f, args)
    case ExtractElement(constantVector, constantIndex) => constantVector && constantIndex
    case ExtractValue(constantAggregate) => constantAggregate
  }

  // ---------------------------------------------------------------------------------
  // The meaning: chains of callers down to something that is no constant address

  /** The value depends on something that is no constant address whatever the arguments are. */
  predicate Spoilt(v: Value) {
    match v
    case Arg(_) => false
    case Constant => false
    case Alloca => false
    case Gep(constantIndices, base) => !constantIndices || Spoilt(base)
    case BitCast(fromPointer, operand) => !fromPointer || Spoilt(operand)
    case Select(t, f) => Spoilt(t) || Spoilt(f)
    case ExtractElement(constantVector, constantIndex) => !constantVector || !constantIndex
    case ExtractValue(constantAggregate) => !constantAggregate
    case _ => true
  }

  /** The arguments that the value depends on. */
  function ArgsOf(v: Value): set<ArgId> {
    match v
    case Arg(a) => {a}
    case Gep(_, base) => ArgsOf(base)
    case BitCast(_, operand) => ArgsOf(operand)
    case Select(t, f) => ArgsOf(t) + ArgsOf(f)
    case _ => {}
  }

  predicate In(a: ArgId, args: ArgSets) {
    a.fn in args && a.no in args[a.fn]
  }

  lemma {:induction false} ConstantIffArgs(v: Value, args: ArgSets)
    ensures IsConstantAddress(v, args) <==> !Spoilt(v) && forall a :: a in ArgsOf(v) ==> In(a, args)
  {
    match v
    case Arg(a) =>
      assert a in ArgsOf(v);
    case Gep(_, base) =>
      ConstantIffArgs(base, args);
      assert ArgsOf(v) == ArgsOf(base);
    case BitCast(_, operand) =>
      ConstantIffArgs(operand, args);
      assert ArgsOf(v) == ArgsOf(operand);
    case Select(t, f) =>
      ConstantIffArgs(t, args);
      ConstantIffArgs(f, args);
      assert ArgsOf(v) == ArgsOf(t) + ArgsOf(f);
    case _ =>
  }

  ghost predicate Candidate(p: Program, a: ArgId) {
    a.fn < |p| && p[a.fn].directCallOnly && a.no in p[a.fn].pointerArgs
  }

  /** The argument is none to start with, or some call leaves it out or gives it a spoilt value. */
  ghost predicate Refuted(p: Program, a: ArgId) {
    !Candidate(p, a) || exists c :: 0 <= c < |p[a.fn].calls| && SpoiltBy(p[a.fn].calls[c], a.no)
  }

  predicate SpoiltBy(call: seq<Value>, no: nat) {
    no >= |call| || Spoilt(call[no])
  }

  /** Some call gives argument a value that depends on argument b of the caller. */
  ghost predicate Passes(p: Program, a: ArgId, b: ArgId) {
    Candidate(p, a) && exists c :: 0 <= c < |p[a.fn].calls| && PassedBy(p[a.fn].calls[c], a.no, b)
  }

  predicate PassedBy(call: seq<Value>, no: nat, b: ArgId) {
    no < |call| && b in ArgsOf(call[no])
  }

  /** A chain of callers, each passing on to the one before it, down to a refuted argument. */
  ghost predicate Refutation(p: Program, chain: seq<ArgId>) {
    && |chain| >= 1 && Refuted(p, chain[|chain| - 1])
    && forall i :: 0 <= i < |chain| - 1 ==> Passes(p, chain[i], chain[i + 1])
  }

  ghost predicate Refutable(p: Program, a: ArgId) {
    exists chain :: Refutation(p, chain) && chain[0] == a
  }

  lemma RefutableBack(p: Program, a: ArgId, b: ArgId)
    requires Passes(p, a, b) && Refutable(p, b)
    ensures Refutable(p, a)
  {
    var chain :| Refutation(p, chain) && chain[0] == b;
    var longer := [a] + chain;
    forall i | 0 <= i < |longer| - 1
      ensures Passes(p, longer[i], longer[i + 1])
    {
      if i > 0 {
        assert Passes(p, chain[i - 1], chain[i]);
      }
    }
    assert Refutation(p, longer);
  }
}
