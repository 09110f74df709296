/**
  Properties of the symbol encoder: what each shape converts to, the meaning
  the conversion preserves, the semantics of the two supported casts, and the
  data-flow numbering the id counter produces.
*/
module SymbolProofs {
  import opened Wrappers
  import opened Ir
  import opened Expression
  import opened Symbols

  // ---------------------------------------------------------------------------
  // Shapes
  // ---------------------------------------------------------------------------

  predicate IsBinary(k: Kind) {
    k.SSBinary? || k.SVBinary? || k.VSBinary?
  }

  predicate IsSelect(k: Kind) {
    k.SSSelect? || k.VSSelect? || k.SVSelect? || k.VVSelect?
  }

  /**
    All three binary shapes convert alike: after the instruction check, the
    left operand is encoded, then the right one, and the result is the
    instruction's operator applied to the two encodings in their source order.
    At least one of the two operands is symbolic.
  */
  lemma BinaryConversion(s: Symbol)
    requires IsBinary(s.kind)
    ensures |Operands(s.kind)| == 2
    ensures Operands(s.kind)[0].Sym? || Operands(s.kind)[1].Sym?
    ensures
      var lhs := EncodeOperand(Operands(s.kind)[0]);
      var rhs := EncodeOperand(Operands(s.kind)[1]);
      ConvertToExpr(s) ==
        if !s.v.isInstruction then Failure(NotAnInstruction)
        else if lhs.Failure? then Failure(lhs.error)
        else if rhs.Failure? then Failure(rhs.error)
        else Success(Op(s.v.opcode, lhs.value, rhs.value))
  {
  }

  /**
    All four select shapes convert alike: after the select check, the result
    is a conditional whose condition, then- and else-parts are the encodings
    of the three operands in their source order. The condition is symbolic in
    every shape.
  */
  lemma SelectConversion(s: Symbol)
    requires IsSelect(s.kind)
    ensures |Operands(s.kind)| == 3
    ensures Operands(s.kind)[0].Sym?
    ensures
      var c := EncodeOperand(Operands(s.kind)[0]);
      var t := EncodeOperand(Operands(s.kind)[1]);
      var e := EncodeOperand(Operands(s.kind)[2]);
      ConvertToExpr(s) ==
        if !s.v.isSelect then Failure(NotASelect)
        else if c.Failure? then Failure(c.error)
        else if t.Failure? then Failure(t.error)
        else if e.Failure? then Failure(e.error)
        else Success(Ite(c.value, t.value, e.value))
  {
  }

  /**
    A pointer offset applies the concrete base, as a constant, to the
    converted offset. The base is never converted and no check is made on
    the symbol's own value.
  */
  lemma GepConversion(s: Symbol)
    requires s.kind.Gep?
    ensures Operands(s.kind) == [Concrete(s.kind.a), Sym(s.kind.s1)]
    ensures ConvertToExpr(s).Success? <==> ConvertToExpr(s.kind.s1).Success?
    ensures ConvertToExpr(s).Success? ==>
      ConvertToExpr(s).value == App(Const(s.kind.a), ConvertToExpr(s.kind.s1).value)
  {
  }

  // ---------------------------------------------------------------------------
  // Casts
  // ---------------------------------------------------------------------------

  /**
    Widening i1 to i32 encodes as `Ite(e, 1, 0)`: it evaluates to 1 when the
    operand evaluates to true and to 0 when the operand evaluates to false.
  */
  lemma CastBoolToInt(s: Symbol, m: Interp)
    requires s.kind.Cast? && s.v.isInstruction
    requires s.v.operandTy == I1 && s.v.ty == I32
    requires ConvertToExpr(s.kind.s1).Success?
    ensures ConvertToExpr(s) == Success(Ite(ConvertToExpr(s.kind.s1).value, Num(1), Num(0)))
    ensures Eval(ConvertToExpr(s.kind.s1).value, m) == Bool(true) ==>
      Eval(ConvertToExpr(s).value, m) == Int(1)
    ensures Eval(ConvertToExpr(s.kind.s1).value, m) == Bool(false) ==>
      Eval(ConvertToExpr(s).value, m) == Int(0)
  {
  }

  /**
    Narrowing i32 to i1 encodes as `Diseq(e, 0)`: on an integer operand it
    evaluates to a boolean, and to false exactly when the operand is 0.
  */
  lemma CastIntToBool(s: Symbol, m: Interp)
    requires s.kind.Cast? && s.v.isInstruction
    requires s.v.operandTy == I32 && s.v.ty == I1
    requires ConvertToExpr(s.kind.s1).Success?
    ensures ConvertToExpr(s) == Success(Diseq(ConvertToExpr(s.kind.s1).value, Num(0)))
    ensures Eval(ConvertToExpr(s.kind.s1).value, m).Int? ==>
      && Eval(ConvertToExpr(s).value, m).Bool?
      && (Eval(ConvertToExpr(s).value, m) == Bool(false) <==> Eval(ConvertToExpr(s.kind.s1).value, m) == Int(0))
  {
  }

  /**
    Every other pair of widths is an error naming the two types, whatever
    the operand: a cast never yields a formula unless it is one of the two
    supported ones.
  */
  lemma UnsupportedCastFails(s: Symbol)
    requires s.kind.Cast? && s.v.isInstruction
    requires !SupportedCast(s.v.operandTy, s.v.ty)
    ensures ConvertToExpr(s) == Failure(UnsupportedCast(s.v.operandTy, s.v.ty))
  {
  }

  /** A cast that converts is one of the two supported ones. */
  lemma ConvertedCastIsSupported(s: Symbol)
    requires s.kind.Cast?
    ensures ConvertToExpr(s).Success? ==> s.v.isInstruction && SupportedCast(s.v.operandTy, s.v.ty)
  {
  }

  // ---------------------------------------------------------------------------
  // Meaning
  // ---------------------------------------------------------------------------

  /**
    The conversion is faithful: whenever a symbol converts, its expression
    evaluates, under any interpretation, to the value the symbol stands for.
  */
  lemma {:induction false} ConvertPreservesMeaning(s: Symbol, m: Interp)
    requires ConvertToExpr(s).Success?
    ensures Eval(ConvertToExpr(s).value, m) == Denote(s, m)
  {
    match s.kind
    case Plain =>
    case Input =>
    case SSBinary(s1, s2) =>
      ConvertPreservesMeaning(s1, m);
      ConvertPreservesMeaning(s2, m);
    case SVBinary(s1, _) =>
      ConvertPreservesMeaning(s1, m);
    case VSBinary(_, s2) =>
      ConvertPreservesMeaning(s2, m);
    case SSSelect(s1, s2, s3) =>
      ConvertPreservesMeaning(s1, m);
      ConvertPreservesMeaning(s2, m);
      ConvertPreservesMeaning(s3, m);
    case VSSelect(s1, _, s3) =>
      ConvertPreservesMeaning(s1, m);
      ConvertPreservesMeaning(s3, m);
    case SVSelect(s1, s2, _) =>
      ConvertPreservesMeaning(s1, m);
      ConvertPreservesMeaning(s2, m);
    case VVSelect(s1, _, _) =>
      ConvertPreservesMeaning(s1, m);
    case Cast(s1) =>
      ConvertPreservesMeaning(s1, m);
    case Gep(_, s1) =>
      ConvertPreservesMeaning(s1, m);
  }

  // ---------------------------------------------------------------------------
  // Numbering
  // ---------------------------------------------------------------------------

  /**
    In a well-numbered symbol every symbol reachable through its operands has
    a smaller id; in particular no symbol is reachable from itself.
  */
  lemma {:induction false} WellNumberedOperandsPrecede(s: Symbol)
    requires WellNumbered(s)
    ensures forall x :: x in OperandIds(s) ==> x < s.id
    decreases s, 1
  {
    match s.kind
    case Plain =>
    case Input =>
    case SSBinary(s1, s2) =>
      IdsPrecede(s1, s.id);
      IdsPrecede(s2, s.id);
    case SVBinary(s1, _) =>
      IdsPrecede(s1, s.id);
    case VSBinary(_, s2) =>
      IdsPrecede(s2, s.id);
    case SSSelect(s1, s2, s3) =>
      IdsPrecede(s1, s.id);
      IdsPrecede(s2, s.id);
      IdsPrecede(s3, s.id);
    case VSSelect(s1, _, s3) =>
      IdsPrecede(s1, s.id);
      IdsPrecede(s3, s.id);
    case SVSelect(s1, s2, _) =>
      IdsPrecede(s1, s.id);
      IdsPrecede(s2, s.id);
    case VVSelect(s1, _, _) =>
      IdsPrecede(s1, s.id);
    case Cast(s1) =>
      IdsPrecede(s1, s.id);
    case Gep(_, s1) =>
      IdsPrecede(s1, s.id);
  }

  /** Every id reachable from a well-numbered symbol is at most its own id. */
  lemma {:induction false} IdsPrecede(t: Symbol, n: nat)
    requires WellNumbered(t) && t.id < n
    ensures forall x :: x in Ids(t) ==> x < n
    decreases t, 2
  {
    WellNumberedOperandsPrecede(t);
  }

  /**
    Building a symbol over operands that were built earlier by the same
    counter keeps the data-flow numbering, and the new symbol's id occurs
    nowhere among its operands.
  */
  lemma CreateKeepsNumbering(f: Factory, v: Option<Value>, k: Kind)
    requires v.Some?
    requires forall i :: 0 <= i < |Operands(k)| && Operands(k)[i].Sym? ==>
      WellNumbered(Operands(k)[i].s) && Operands(k)[i].s.id < f.nextId
    ensures Create(f, v, k).Success?
    ensures WellNumbered(Create(f, v, k).value.1)
    ensures f.nextId !in OperandIds(Create(f, v, k).value.1)
  {
    var s := Create(f, v, k).value.1;
    var ops := Operands(k);
    match k {
      case Plain =>
      case Input =>
      case SSBinary(_, _) =>
        assert ops[0].Sym? && ops[1].Sym?;
      case SVBinary(_, _) =>
        assert ops[0].Sym?;
      case VSBinary(_, _) =>
        assert ops[1].Sym?;
      case SSSelect(_, _, _) =>
        assert ops[0].Sym? && ops[1].Sym? && ops[2].Sym?;
      case VSSelect(_, _, _) =>
        assert ops[0].Sym? && ops[2].Sym?;
      case SVSelect(_, _, _) =>
        assert ops[0].Sym? && ops[1].Sym?;
      case VVSelect(_, _, _) =>
        assert ops[0].Sym?;
      case Cast(_) =>
        assert ops[0].Sym?;
      case Gep(_, _) =>
        assert ops[1].Sym?;
    }
    assert WellNumbered(s);
    WellNumberedOperandsPrecede(s);
  }
}
