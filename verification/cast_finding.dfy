/**
  The conversion as SNIPER's C++ header writes it, unsupported casts included.

  Its unsupported-cast branch calls `assert` on a string literal. The C
  `assert` macro aborts only when its argument compares equal to zero, and a
  string literal decays to a non-null pointer, so that assert never aborts;
  control then reaches the end of a value-returning function without a
  `return`, which is undefined behaviour in C++. Since every conversion calls
  its operands' conversions, that undefined behaviour reaches every symbol
  whose conversion gets to such a cast before another check aborts: exactly
  the symbols whose corrected conversion fails first with `UnsupportedCast`. `Symbols.ConvertToExpr` is the corrected conversion,
  which reports `UnsupportedCast` instead.
*/
module CastFinding {
  import opened Wrappers
  import opened Ir
  import opened Expression
  import opened Symbols

  /** The scalar handed to the C `assert` macro. */
  datatype CScalar = Pointer(isNull: bool) | Integer(n: int)

  /** `assert(x)` aborts exactly when `x` compares equal to zero. */
  predicate AssertAborts(x: CScalar) {
    match x
    case Pointer(isNull) => isNull
    case Integer(n) => n == 0
  }

  /** A string literal in a condition is a pointer to its first character. */
  function StringLiteral(text: string): (r: CScalar) {
    Pointer(false)
  }

  /** `a && b` on C scalars: the integer 1 when both are non-zero, else 0. */
  function LogicalAnd(a: CScalar, b: CScalar): (r: CScalar) {
    Integer(if !AssertAborts(a) && !AssertAborts(b) then 1 else 0)
  }

  /**
    How a call of `convertToExpr` ends: with an expression, with an abort
    (`assert`, `exit(1)`), or by reaching the end of the function without a
    `return`.
  */
  datatype Flow = Returns(e: Expr) | Aborts(error: EncodingError) | FallsOffEnd {

    predicate IsFailure() {
      !Returns?
    }

    function PropagateFailure(): Flow
      requires !Returns?
    {
      this
    }

    function Extract(): Expr
      requires Returns?
    {
      e
    }
  }

  /**
    The instruction check `assert(I && "...")` of the binary and cast
    conversions: it aborts exactly when the value is no instruction.
  */
  predicate InstructionAssertAborts(v: Value) {
    AssertAborts(LogicalAnd(Pointer(!v.isInstruction), StringLiteral("Symbol has no instruction!")))
  }

  /**
    `convertToExpr` with the control flow of the source: the same checks as
    `Symbols.ConvertToExpr`, except that an unsupported cast reaches the end of
    the function, and a call that reached the end of the function leaves its
    caller in undefined behaviour too.
  */
  function ConvertAsWritten(s: Symbol): (r: Flow)
    ensures r.Returns? ==> ConvertToExpr(s) == Success(r.e)
    ensures r.Aborts? ==> ConvertToExpr(s) == Failure(r.error) && !r.error.UnsupportedCast?
    ensures r.FallsOffEnd? <==> ConvertToExpr(s).Failure? && ConvertToExpr(s).error.UnsupportedCast?
    ensures r.FallsOffEnd? ==> HasUnsupportedCast(s)
  {
    match s.kind
    case Plain => Returns(Var(s.id))
    case Input => Returns(Var(s.id))
    case SSBinary(s1, s2) =>
      if !s.v.isInstruction then Aborts(NotAnInstruction)   // exit(1)
      else
        var e1 :- ConvertAsWritten(s1);
        var e2 :- ConvertAsWritten(s2);
        Returns(Op(s.v.opcode, e1, e2))
    case SVBinary(s1, v2) =>
      if InstructionAssertAborts(s.v) then Aborts(NotAnInstruction)
      else
        var e1 :- ConvertAsWritten(s1);
        Returns(Op(s.v.opcode, e1, Const(v2)))
    case VSBinary(v1, s2) =>
      if InstructionAssertAborts(s.v) then Aborts(NotAnInstruction)
      else
        var e2 :- ConvertAsWritten(s2);
        Returns(Op(s.v.opcode, Const(v1), e2))
    case SSSelect(s1, s2, s3) =>
      if !s.v.isSelect then Aborts(NotASelect)
      else
        var e1 :- ConvertAsWritten(s1);
        var e2 :- ConvertAsWritten(s2);
        var e3 :- ConvertAsWritten(s3);
        Returns(Ite(e1, e2, e3))
    case VSSelect(s1, v2, s3) =>
      if !s.v.isSelect then Aborts(NotASelect)
      else
        var e1 :- ConvertAsWritten(s1);
        var e3 :- ConvertAsWritten(s3);
        Returns(Ite(e1, Const(v2), e3))
    case SVSelect(s1, s2, v3) =>
      if !s.v.isSelect then Aborts(NotASelect)
      else
        var e1 :- ConvertAsWritten(s1);
        var e2 :- ConvertAsWritten(s2);
        Returns(Ite(e1, e2, Const(v3)))
    case VVSelect(s1, v2, v3) =>
      if !s.v.isSelect then Aborts(NotASelect)
      else
        var e1 :- ConvertAsWritten(s1);
        Returns(Ite(e1, Const(v2), Const(v3)))
    case Cast(s1) =>
      if InstructionAssertAborts(s.v) then Aborts(NotAnInstruction)
      else if s.v.operandTy == I1 && s.v.ty == I32 then
        var e1 :- ConvertAsWritten(s1);
        Returns(Ite(e1, Num(1), Num(0)))
      else if s.v.operandTy == I32 && s.v.ty == I1 then
        var e1 :- ConvertAsWritten(s1);
        Returns(Diseq(e1, Num(0)))
      else if AssertAborts(StringLiteral("Unsupported cast operation!")) then
        Aborts(UnsupportedCast(s.v.operandTy, s.v.ty))
      else
        FallsOffEnd
    case Gep(a, s1) =>
      var e2 :- ConvertAsWritten(s1);
      Returns(App(Const(a), e2))
  }

  /** Whether an unsupported cast over an instruction is reachable from `s`. */
  predicate HasUnsupportedCast(s: Symbol) {
    match s.kind
    case Plain => false
    case Input => false
    case SSBinary(s1, s2) => HasUnsupportedCast(s1) || HasUnsupportedCast(s2)
    case SVBinary(s1, _) => HasUnsupportedCast(s1)
    case VSBinary(_, s2) => HasUnsupportedCast(s2)
    case SSSelect(s1, s2, s3) => HasUnsupportedCast(s1) || HasUnsupportedCast(s2) || HasUnsupportedCast(s3)
    case VSSelect(s1, _, s3) => HasUnsupportedCast(s1) || HasUnsupportedCast(s3)
    case SVSelect(s1, s2, _) => HasUnsupportedCast(s1) || HasUnsupportedCast(s2)
    case VVSelect(s1, _, _) => HasUnsupportedCast(s1)
    case Cast(s1) =>
      (s.v.isInstruction && !SupportedCast(s.v.operandTy, s.v.ty)) || HasUnsupportedCast(s1)
    case Gep(_, s1) => HasUnsupportedCast(s1)
  }

  /**
    A symbol with an unsupported cast somewhere below it never yields an
    expression in the source: the call either aborts on an earlier check or
    ends in undefined behaviour.
  */
  lemma {:induction false} UnsupportedCastNeverReturns(s: Symbol)
    requires HasUnsupportedCast(s)
    ensures !ConvertAsWritten(s).Returns?
  {
    match s.kind
    case SSBinary(s1, s2) =>
      if HasUnsupportedCast(s1) { UnsupportedCastNeverReturns(s1); } else { UnsupportedCastNeverReturns(s2); }
    case SVBinary(s1, _) => UnsupportedCastNeverReturns(s1);
    case VSBinary(_, s2) => UnsupportedCastNeverReturns(s2);
    case SSSelect(s1, s2, s3) =>
      if HasUnsupportedCast(s1) { UnsupportedCastNeverReturns(s1); }
      else if HasUnsupportedCast(s2) { UnsupportedCastNeverReturns(s2); }
      else { UnsupportedCastNeverReturns(s3); }
    case VSSelect(s1, _, s3) =>
      if HasUnsupportedCast(s1) { UnsupportedCastNeverReturns(s1); } else { UnsupportedCastNeverReturns(s3); }
    case SVSelect(s1, s2, _) =>
      if HasUnsupportedCast(s1) { UnsupportedCastNeverReturns(s1); } else { UnsupportedCastNeverReturns(s2); }
    case VVSelect(s1, _, _) => UnsupportedCastNeverReturns(s1);
    case Cast(s1) =>
      if HasUnsupportedCast(s1) { UnsupportedCastNeverReturns(s1); }
    case Gep(_, s1) => UnsupportedCastNeverReturns(s1);
  }

  /**
    Every unsupported cast over an instruction leaves the source's conversion
    without a result: it neither returns an expression nor aborts.
  */
  lemma UnsupportedCastFallsOffEnd(s: Symbol)
    requires s.kind.Cast? && s.v.isInstruction
    requires !SupportedCast(s.v.operandTy, s.v.ty)
    ensures ConvertAsWritten(s) == FallsOffEnd
  {
  }

  /** A concrete witness: a sign- or zero-extension from i8 to i32 of an argument. */
  lemma I8ToI32FallsOffEnd()
    ensures
      var arg := Value(0, false, false, 0, IntegerTy(8), OtherTy);
      var ext := Value(1, true, false, 0, I32, IntegerTy(8));
      ConvertAsWritten(Symbol(1, ext, Cast(Symbol(0, arg, Input)))) == FallsOffEnd
  {
  }

  /**
    The fall-through reaches the caller: a supported i1 -> i32 cast over an
    i8 -> i1 cast of an argument falls off the end inside its operand.
  */
  lemma NestedCastFallsOffEnd()
    ensures
      var arg := Value(0, false, false, 0, IntegerTy(8), OtherTy);
      var inner := Value(1, true, false, 0, I1, IntegerTy(8));
      var outer := Value(2, true, false, 0, I32, I1);
      ConvertAsWritten(Symbol(2, outer, Cast(Symbol(1, inner, Cast(Symbol(0, arg, Input)))))) == FallsOffEnd
  {
  }
}
