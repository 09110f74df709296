/**
  Symbolic values and their translation into logic expressions.

  A symbol wraps one LLVM value and carries a numeric id. The class hierarchy
  of SNIPER's C++ header (one class per placement of symbolic and concrete operands)
  becomes the variants of `Kind`; a `Symbol` pairs the common part (id and
  value) with its kind. Operand symbols are held by value, so a symbol is a
  finite tree and every structural recursion over it terminates.
*/
module Symbols {
  import opened Wrappers
  import opened Ir
  import opened Expression

  /** Why a symbol could not be built or converted. */
  datatype EncodingError =
    | NullValue                                 // a symbol built over a null value
    | NotAnInstruction                          // binary op or cast whose value is no instruction
    | NotASelect                                // select symbol whose value is no select instruction
    | UnsupportedCast(from: Type, to: Type)     // a cast other than i1 -> i32 and i32 -> i1

  datatype Symbol = Symbol(id: nat, v: Value, kind: Kind)

  /**
    The concrete class of a symbol. In the binary and select shapes `S` marks a
    symbolic operand and `V` a concrete one; the select shapes name the then-
    and else-operands only, the condition being symbolic in all four.
  */
  datatype Kind =
    | Plain                                      // the base class `Symbol`
    | Input                                      // `InputSymbol`: a function argument
    | SSBinary(s1: Symbol, s2: Symbol)           // S(v1) op S(v2)
    | SVBinary(s1: Symbol, v2: Value)            // S(v1) op v2
    | VSBinary(v1: Value, s2: Symbol)            // v1 op S(v2)
    | SSSelect(s1: Symbol, s2: Symbol, s3: Symbol)   // S(v1) ? S(v2) : S(v3)
    | VSSelect(s1: Symbol, v2: Value, s3: Symbol)    // S(v1) ? v2 : S(v3)
    | SVSelect(s1: Symbol, s2: Symbol, v3: Value)    // S(v1) ? S(v2) : v3
    | VVSelect(s1: Symbol, v2: Value, v3: Value)     // S(v1) ? v2 : v3
    | Cast(s1: Symbol)                           // cast S(v1)
    | Gep(a: Value, s1: Symbol)                  // gep a, S(v1): concrete base, symbolic offset

  // ---------------------------------------------------------------------------
  // Id assignment
  // ---------------------------------------------------------------------------

  /** The id counter is an `unsigned`, so it counts modulo 2^32. */
  const IdLimit: nat := 0x1_0000_0000

  type Id = x: nat | x < IdLimit

  /** The counter that hands out symbol ids, owned by one symbol factory. */
  datatype Factory = Factory(nextId: Id)

  /**
    Builds a symbol over the value `v` (a possibly null pointer): the symbol
    takes the current counter value as its id and the counter moves on by one.
    A null value is refused.
  */
  function Create(f: Factory, v: Option<Value>, k: Kind): (r: Result<(Factory, Symbol), EncodingError>)
    ensures r.Success? <==> v.Some?
    ensures r.Failure? ==> r.error == NullValue
    ensures r.Success? ==> r.value.1 == Symbol(f.nextId, v.value, k)
    ensures r.Success? ==> r.value.0.nextId == (f.nextId + 1) % IdLimit
  {
    match v
    case None => Failure(NullValue)
    case Some(value) => Success((Factory((f.nextId + 1) % IdLimit), Symbol(f.nextId, value, k)))
  }

  /**
    Builds one symbol per request, in order, stopping at the first null value.
    The i-th symbol gets id `nextId + i` (modulo 2^32); as long as the counter
    does not wrap, the ids are strictly increasing and hence distinct.
  */
  method CreateAll(f: Factory, reqs: seq<(Option<Value>, Kind)>)
    returns (r: Result<(Factory, seq<Symbol>), EncodingError>)
    ensures r.Success? <==> forall i :: 0 <= i < |reqs| ==> reqs[i].0.Some?
    ensures r.Failure? ==> r.error == NullValue
    ensures r.Success? ==> |r.value.1| == |reqs|
    ensures r.Success? ==> forall i :: 0 <= i < |reqs| ==>
      r.value.1[i] == Symbol((f.nextId + i) % IdLimit, reqs[i].0.value, reqs[i].1)
    ensures r.Success? ==> r.value.0.nextId == (f.nextId + |reqs|) % IdLimit
    ensures r.Success? && f.nextId + |reqs| <= IdLimit ==>
      forall i, j :: 0 <= i < j < |reqs| ==> r.value.1[i].id < r.value.1[j].id
  {
    var cur := f;
    var built: seq<Symbol> := [];
    for i := 0 to |reqs|
      invariant |built| == i
      invariant cur.nextId == (f.nextId + i) % IdLimit
      invariant forall j :: 0 <= j < i ==> reqs[j].0.Some?
      invariant forall j :: 0 <= j < i ==>
        built[j] == Symbol((f.nextId + j) % IdLimit, reqs[j].0.value, reqs[j].1)
    {
      var step := Create(cur, reqs[i].0, reqs[i].1);
      if step.Failure? {
        return Failure(step.error);
      }
      ModSucc(f.nextId + i);
      cur := step.value.0;
      built := built + [step.value.1];
    }
    r := Success((cur, built));
    if f.nextId + |reqs| <= IdLimit {
      forall i, j | 0 <= i < j < |reqs|
        ensures r.value.1[i].id < r.value.1[j].id
      {
        assert r.value.1[i].id == f.nextId + i;
        assert r.value.1[j].id == f.nextId + j;
      }
    }
  }

  lemma ModSucc(x: nat)
    ensures (x % IdLimit + 1) % IdLimit == (x + 1) % IdLimit
  {
  }

  // ---------------------------------------------------------------------------
  // Queries
  // ---------------------------------------------------------------------------

  /** Whether a symbol stands for an argument of the target function. */
  function IsInput(s: Symbol): (r: bool)
    ensures r <==> s.kind.Input?
    ensures r ==> Operands(s.kind) == []
  {
    match s.kind
    case Input => true
    case _ => false
  }

  /** An operand slot of a symbol: another symbol, or a concrete LLVM value. */
  datatype Operand = Sym(s: Symbol) | Concrete(c: Value)

  /** The operands of a kind, in their source order. */
  function Operands(k: Kind): (r: seq<Operand>) {
    match k
    case Plain => []
    case Input => []
    case SSBinary(s1, s2) => [Sym(s1), Sym(s2)]
    case SVBinary(s1, v2) => [Sym(s1), Concrete(v2)]
    case VSBinary(v1, s2) => [Concrete(v1), Sym(s2)]
    case SSSelect(s1, s2, s3) => [Sym(s1), Sym(s2), Sym(s3)]
    case VSSelect(s1, v2, s3) => [Sym(s1), Concrete(v2), Sym(s3)]
    case SVSelect(s1, s2, v3) => [Sym(s1), Sym(s2), Concrete(v3)]
    case VVSelect(s1, v2, v3) => [Sym(s1), Concrete(v2), Concrete(v3)]
    case Cast(s1) => [Sym(s1)]
    case Gep(a, s1) => [Concrete(a), Sym(s1)]
  }

  /** The ids of the plain and input symbols reachable from `s`. */
  function LeafIds(s: Symbol): (r: set<nat>) {
    match s.kind
    case Plain => {s.id}
    case Input => {s.id}
    case SSBinary(s1, s2) => LeafIds(s1) + LeafIds(s2)
    case SVBinary(s1, _) => LeafIds(s1)
    case VSBinary(_, s2) => LeafIds(s2)
    case SSSelect(s1, s2, s3) => LeafIds(s1) + LeafIds(s2) + LeafIds(s3)
    case VSSelect(s1, _, s3) => LeafIds(s1) + LeafIds(s3)
    case SVSelect(s1, s2, _) => LeafIds(s1) + LeafIds(s2)
    case VVSelect(s1, _, _) => LeafIds(s1)
    case Cast(s1) => LeafIds(s1)
    case Gep(_, s1) => LeafIds(s1)
  }

  /** The concrete operand values held anywhere in `s`. */
  function ConcreteOperands(s: Symbol): (r: set<Value>) {
    match s.kind
    case Plain => {}
    case Input => {}
    case SSBinary(s1, s2) => ConcreteOperands(s1) + ConcreteOperands(s2)
    case SVBinary(s1, v2) => ConcreteOperands(s1) + {v2}
    case VSBinary(v1, s2) => {v1} + ConcreteOperands(s2)
    case SSSelect(s1, s2, s3) => ConcreteOperands(s1) + ConcreteOperands(s2) + ConcreteOperands(s3)
    case VSSelect(s1, v2, s3) => ConcreteOperands(s1) + {v2} + ConcreteOperands(s3)
    case SVSelect(s1, s2, v3) => ConcreteOperands(s1) + ConcreteOperands(s2) + {v3}
    case VVSelect(s1, v2, v3) => ConcreteOperands(s1) + {v2, v3}
    case Cast(s1) => ConcreteOperands(s1)
    case Gep(a, s1) => {a} + ConcreteOperands(s1)
  }

  /** The ids of every symbol reachable from `s`, `s` included. */
  function Ids(s: Symbol): (r: set<nat>)
    decreases s, 1
  {
    {s.id} + OperandIds(s)
  }

  /** The ids of every symbol reachable from the operands of `s`. */
  function OperandIds(s: Symbol): (r: set<nat>)
    decreases s, 0
  {
    match s.kind
    case Plain => {}
    case Input => {}
    case SSBinary(s1, s2) => Ids(s1) + Ids(s2)
    case SVBinary(s1, _) => Ids(s1)
    case VSBinary(_, s2) => Ids(s2)
    case SSSelect(s1, s2, s3) => Ids(s1) + Ids(s2) + Ids(s3)
    case VSSelect(s1, _, s3) => Ids(s1) + Ids(s3)
    case SVSelect(s1, s2, _) => Ids(s1) + Ids(s2)
    case VVSelect(s1, _, _) => Ids(s1)
    case Cast(s1) => Ids(s1)
    case Gep(_, s1) => Ids(s1)
  }

  /**
    Symbols are numbered in data-flow order: every symbolic operand was built
    before the symbol that uses it, so it carries a smaller id.
  */
  predicate WellNumbered(s: Symbol) {
    match s.kind
    case Plain => true
    case Input => true
    case SSBinary(s1, s2) => Before(s1, s) && Before(s2, s) && WellNumbered(s1) && WellNumbered(s2)
    case SVBinary(s1, _) => Before(s1, s) && WellNumbered(s1)
    case VSBinary(_, s2) => Before(s2, s) && WellNumbered(s2)
    case SSSelect(s1, s2, s3) =>
      Before(s1, s) && Before(s2, s) && Before(s3, s) && WellNumbered(s1) && WellNumbered(s2) && WellNumbered(s3)
    case VSSelect(s1, _, s3) => Before(s1, s) && Before(s3, s) && WellNumbered(s1) && WellNumbered(s3)
    case SVSelect(s1, s2, _) => Before(s1, s) && Before(s2, s) && WellNumbered(s1) && WellNumbered(s2)
    case VVSelect(s1, _, _) => Before(s1, s) && WellNumbered(s1)
    case Cast(s1) => Before(s1, s) && WellNumbered(s1)
    case Gep(_, s1) => Before(s1, s) && WellNumbered(s1)
  }

  predicate Before(t: Symbol, s: Symbol) {
    t.id < s.id
  }

  // ---------------------------------------------------------------------------
  // Conversion to a logic expression
  // ---------------------------------------------------------------------------

  /** The two casts the encoder supports: i1 -> i32 and i32 -> i1. */
  predicate SupportedCast(from: Type, to: Type) {
    (from == I1 && to == I32) || (from == I32 && to == I1)
  }

  /**
    The requirements the conversion checks at one symbol, independent of its
    operands: binary ops and casts must wrap an instruction, selects a select
    instruction, and a cast must be one of the two supported width pairs.
  */
  predicate LocallyConvertible(s: Symbol) {
    match s.kind
    case SSBinary(_, _) => s.v.isInstruction
    case SVBinary(_, _) => s.v.isInstruction
    case VSBinary(_, _) => s.v.isInstruction
    case SSSelect(_, _, _) => s.v.isSelect
    case VSSelect(_, _, _) => s.v.isSelect
    case SVSelect(_, _, _) => s.v.isSelect
    case VVSelect(_, _, _) => s.v.isSelect
    case Cast(_) => s.v.isInstruction && SupportedCast(s.v.operandTy, s.v.ty)
    case _ => true
  }

  /** A symbol converts when it and every symbol reachable from it meet the local requirements. */
  predicate Convertible(s: Symbol) {
    LocallyConvertible(s) &&
    match s.kind
    case Plain => true
    case Input => true
    case SSBinary(s1, s2) => Convertible(s1) && Convertible(s2)
    case SVBinary(s1, _) => Convertible(s1)
    case VSBinary(_, s2) => Convertible(s2)
    case SSSelect(s1, s2, s3) => Convertible(s1) && Convertible(s2) && Convertible(s3)
    case VSSelect(s1, _, s3) => Convertible(s1) && Convertible(s3)
    case SVSelect(s1, s2, _) => Convertible(s1) && Convertible(s2)
    case VVSelect(s1, _, _) => Convertible(s1)
    case Cast(s1) => Convertible(s1)
    case Gep(_, s1) => Convertible(s1)
  }

  /**
    `convertToExpr`: the logic expression of a symbol. Symbolic operands are
    converted recursively, concrete operands become constants, and the first
    failing check stops the conversion. No result is cached: converting a
    shared operand twice converts it twice.
  */
  function ConvertToExpr(s: Symbol): (r: Result<Expr, EncodingError>)
    ensures r.Success? <==> Convertible(s)
    ensures r.Success? ==> Vars(r.value) == LeafIds(s)
    ensures r.Success? ==> Consts(r.value) == ConcreteOperands(s)
  {
    match s.kind
    // The body of the base conversion is not part of this model; a plain or
    // input symbol stands for itself, as a variable named by its id.
    case Plain => Success(Var(s.id))
    case Input => Success(Var(s.id))
    case SSBinary(s1, s2) =>
      if !s.v.isInstruction then Failure(NotAnInstruction)
      else
        var e1 :- ConvertToExpr(s1);
        var e2 :- ConvertToExpr(s2);
        Success(Op(s.v.opcode, e1, e2))
    case SVBinary(s1, v2) =>
      if !s.v.isInstruction then Failure(NotAnInstruction)
      else
        var e1 :- ConvertToExpr(s1);
        Success(Op(s.v.opcode, e1, Const(v2)))
    case VSBinary(v1, s2) =>
      if !s.v.isInstruction then Failure(NotAnInstruction)
      else
        var e2 :- ConvertToExpr(s2);
        Success(Op(s.v.opcode, Const(v1), e2))
    case SSSelect(s1, s2, s3) =>
      if !s.v.isSelect then Failure(NotASelect)
      else
        var e1 :- ConvertToExpr(s1);
        var e2 :- ConvertToExpr(s2);
        var e3 :- ConvertToExpr(s3);
        Success(Ite(e1, e2, e3))
    case VSSelect(s1, v2, s3) =>
      if !s.v.isSelect then Failure(NotASelect)
      else
        var e1 :- ConvertToExpr(s1);
        var e3 :- ConvertToExpr(s3);
        Success(Ite(e1, Const(v2), e3))
    case SVSelect(s1, s2, v3) =>
      if !s.v.isSelect then Failure(NotASelect)
      else
        var e1 :- ConvertToExpr(s1);
        var e2 :- ConvertToExpr(s2);
        Success(Ite(e1, e2, Const(v3)))
    case VVSelect(s1, v2, v3) =>
      if !s.v.isSelect then Failure(NotASelect)
      else
        var e1 :- ConvertToExpr(s1);
        Success(Ite(e1, Const(v2), Const(v3)))
    case Cast(s1) =>
      if !s.v.isInstruction then Failure(NotAnInstruction)
      else if s.v.operandTy == I1 && s.v.ty == I32 then
        var e1 :- ConvertToExpr(s1);
        Success(Ite(e1, Num(1), Num(0)))
      else if s.v.operandTy == I32 && s.v.ty == I1 then
        var e1 :- ConvertToExpr(s1);
        Success(Diseq(e1, Num(0)))
      else
        Failure(UnsupportedCast(s.v.operandTy, s.v.ty))
    case Gep(a, s1) =>
      var e2 :- ConvertToExpr(s1);
      Success(App(Const(a), e2))
  }

  /** `getExprFromValue` for a concrete operand, the conversion for a symbolic one. */
  function EncodeOperand(o: Operand): (r: Result<Expr, EncodingError>) {
    match o
    case Sym(t) => ConvertToExpr(t)
    case Concrete(c) => Success(Const(c))
  }

  // ---------------------------------------------------------------------------
  // Meaning of a symbol
  // ---------------------------------------------------------------------------

  /**
    The meaning the encoder gives a cast, chosen by the two widths alone: the
    C conversions between booleans and integers. A boolean widens to 1 for true
    and 0 for false (zero extension), and a 32-bit integer narrows to whether
    it differs from zero. This is not LLVM's meaning for every cast: `trunc`
    from i32 to i1 keeps bit 0, and `sext` from i1 to i32 gives -1 for true.
    The conversion is proved faithful to this meaning, not to LLVM's.
  */
  function CastValue(from: Type, to: Type, x: Val): (r: Val) {
    if from == I1 && to == I32 then
      match x
      case Bool(b) => Int(if b then 1 else 0)
      case _ => Undef
    else if from == I32 && to == I1 then
      match x
      case Int(n) => Bool(n != 0)
      case _ => Undef
    else
      Undef
  }

  /**
    The run-time value a symbol stands for under an interpretation, read off
    the symbol tree directly: a select picks one of its operands, a cast
    converts its operand's value, a pointer offset applies the base to the
    offset. It is the reference the conversion is proved against.
  */
  function Denote(s: Symbol, m: Interp): (r: Val) {
    match s.kind
    case Plain => m.vars(s.id)
    case Input => m.vars(s.id)
    case SSBinary(s1, s2) => m.ops(s.v.opcode, Denote(s1, m), Denote(s2, m))
    case SVBinary(s1, v2) => m.ops(s.v.opcode, Denote(s1, m), m.consts(v2))
    case VSBinary(v1, s2) => m.ops(s.v.opcode, m.consts(v1), Denote(s2, m))
    case SSSelect(s1, s2, s3) => Choose(Denote(s1, m), Denote(s2, m), Denote(s3, m))
    case VSSelect(s1, v2, s3) => Choose(Denote(s1, m), m.consts(v2), Denote(s3, m))
    case SVSelect(s1, s2, v3) => Choose(Denote(s1, m), Denote(s2, m), m.consts(v3))
    case VVSelect(s1, v2, v3) => Choose(Denote(s1, m), m.consts(v2), m.consts(v3))
    case Cast(s1) => CastValue(s.v.operandTy, s.v.ty, Denote(s1, m))
    case Gep(a, s1) => m.apply(m.consts(a), Denote(s1, m))
  }
}
