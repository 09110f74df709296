/**
  The logic expression algebra the encoder builds on. The builders of the
  C++ expression library become constructors:
    Var      the leaf a plain or input symbol converts to
    Const    `getExprFromValue`, a concrete LLVM value as a constant
    Num      `mkSInt32Num`, a signed 32-bit numeral
    Op       `mkOp(e1, e2, I)`, the binary operator of instruction `I`
    Ite      `mkIte(c, t, e)`
    Diseq    `mkDiseq(a, b)`
    App      `mkApp(f, x)`, application of an array or function to an argument
  `Eval` is a small evaluator that gives these expressions a meaning under an
  interpretation of their variables, constants, operators and applications.
*/
module Expression {
  import opened Ir

  datatype Expr =
    | Var(id: nat)
    | Const(v: Value)
    | Num(n: int)
    | Op(opcode: nat, lhs: Expr, rhs: Expr)
    | Ite(cond: Expr, thn: Expr, els: Expr)
    | Diseq(lhs: Expr, rhs: Expr)
    | App(fn: Expr, arg: Expr)

  /** A value an expression can take. `Undef` is the value of an ill-typed term. */
  datatype Val = Int(n: int) | Bool(b: bool) | Undef

  /**
    An interpretation: the values of the variables, the values of the concrete
    constants, the meaning of each binary opcode and the meaning of application.
  */
  datatype Interp = Interp(
    vars: nat -> Val,
    consts: Value -> Val,
    ops: (nat, Val, Val) -> Val,
    apply: (Val, Val) -> Val)

  /** The value of a conditional: the then-value on true, the else-value on false. */
  function Choose(c: Val, t: Val, e: Val): (r: Val) {
    match c
    case Bool(b) => if b then t else e
    case _ => Undef
  }

  /** The value of a disequality between two values of the same sort. */
  function Differ(a: Val, b: Val): (r: Val) {
    match (a, b)
    case (Int(x), Int(y)) => Bool(x != y)
    case (Bool(x), Bool(y)) => Bool(x != y)
    case _ => Undef
  }

  function Eval(e: Expr, m: Interp): (r: Val) {
    match e
    case Var(id) => m.vars(id)
    case Const(v) => m.consts(v)
    case Num(n) => Int(n)
    case Op(opcode, a, b) => m.ops(opcode, Eval(a, m), Eval(b, m))
    case Ite(c, t, f) => Choose(Eval(c, m), Eval(t, m), Eval(f, m))
    case Diseq(a, b) => Differ(Eval(a, m), Eval(b, m))
    case App(f, x) => m.apply(Eval(f, m), Eval(x, m))
  }

  /** The variables occurring in an expression. */
  function Vars(e: Expr): (r: set<nat>) {
    match e
    case Var(id) => {id}
    case Const(_) => {}
    case Num(_) => {}
    case Op(_, a, b) => Vars(a) + Vars(b)
    case Ite(c, t, f) => Vars(c) + Vars(t) + Vars(f)
    case Diseq(a, b) => Vars(a) + Vars(b)
    case App(f, x) => Vars(f) + Vars(x)
  }

  /** The concrete LLVM values occurring in an expression as constants. */
  function Consts(e: Expr): (r: set<Value>) {
    match e
    case Var(_) => {}
    case Const(v) => {v}
    case Num(_) => {}
    case Op(_, a, b) => Consts(a) + Consts(b)
    case Ite(c, t, f) => Consts(c) + Consts(t) + Consts(f)
    case Diseq(a, b) => Consts(a) + Consts(b)
    case App(f, x) => Consts(f) + Consts(x)
  }
}
