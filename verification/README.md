# Symbolic values of the SNIPER fault localizer

SNIPER finds faults by encoding a failing program's semantics as logic
formulas. Its concolic execution engine gives each program value a *symbol*,
and each symbol knows how to turn itself into a logic expression. This project
models that symbol layer, `src/ExecutionEngine/Symbol.h`, in Dafny and proves
properties of it.

- `Ir` (`ir.dfy`) abstracts an LLVM value to the facts the encoder asks about.
  These are: is it an instruction, is it a select instruction, the operator
  `mkOp` derives from it (its opcode, comparison predicate included), its
  integer type, and the type of its first operand.
- `Expression` (`expression.dfy`) is the logic expression algebra. Each
  builder becomes a constructor: `getExprFromValue` is `Const`, `mkSInt32Num`
  is `Num`, and `mkOp`, `mkIte`, `mkDiseq` and `mkApp` are `Op`, `Ite`,
  `Diseq` and `App`. A small evaluator `Eval` gives these expressions a
  meaning.
- `Symbols` (`symbols.dfy`) holds the symbol datatype. It has one `Kind`
  variant per concrete class of the C++ header: the base `Symbol`, `InputSymbol`, three
  binary shapes, four select shapes, `CastOpSymbol` and `GepOpSymbol`. The
  module also holds the id counter (`Factory`, `Create`, `CreateAll`),
  `isInput` and `convertToExpr` (`ConvertToExpr`, returning a `Result`). It
  also defines `Denote`, the value a symbol stands for, read directly off the
  symbol tree.
- `SymbolProofs` (`symbol_proofs.dfy`) proves the properties below. These are
  the conversion of each shape, cast semantics, preservation of meaning and the
  data-flow numbering of ids.
- `CastFinding` (`cast_finding.dfy`) models the whole conversion with the
  source's control flow. This includes the fall-through of an unsupported cast.
  The fall-through reaches every symbol whose conversion gets to that cast
  before another check aborts (see Findings).

Modelling decisions:
- The `assert`s and the `exit(1)` that guard the conversions become `Failure`
  results: `NotAnInstruction`, `NotASelect`, `UnsupportedCast` and, for a
  symbol built over a null value, `NullValue`. This assumes asserts are
  compiled in. With `NDEBUG` the asserts vanish: the SV/VS binary and cast
  conversions would go on with a null instruction, and a select over a value
  that is no select instruction would still convert. The `exit(1)` of the
  SS binary conversion stays in either build.
- Operands are assumed non-null. Operand symbols are `Symbol` values and
  concrete operands are `Value`s, whereas the source takes unchecked
  `SymbolPtr` and `Value*` arguments and dereferences a symbolic operand
  without a null check.
- In the constructor the counter is incremented before the null check runs. A
  null value aborts the program, so the model simply leaves the counter
  unchanged on `NullValue`.
- The id counter is an `unsigned`, so the model counts modulo 2^32. Ids are
  strictly increasing only while the counter does not wrap. The counter is
  held in a `Factory` value rather than a process-wide static.
- The conversion is not memoized. Each call recomputes the whole tree, so an
  operand shared by two users is converted once per use.
- The body of the base `Symbol::convertToExpr` is not part of this model. A
  plain or input symbol converts to the opaque leaf `Var(id)`.

## Model

| member | source | states |
|---|---|---|
| `Symbols.Create` | src/ExecutionEngine/Symbol.h:101-103 | A symbol over a null value is refused. Otherwise the new symbol takes the counter's value as its id and the counter advances by one, modulo 2^32. |
| `Symbols.CreateAll` | src/ExecutionEngine/Symbol.h:85-103 | Symbols built in sequence get consecutive ids starting from the counter. Without wrap-around these ids are strictly increasing and so pairwise distinct. The first null value stops the sequence with an error. |
| `Symbols.IsInput` | src/ExecutionEngine/Symbol.h:121-169 | True exactly for input symbols and false for every other kind, the base symbol included. An input has no operands. |
| `Symbols.ConvertToExpr` | src/ExecutionEngine/Symbol.h:199-524 | Conversion succeeds exactly when every reachable symbol passes its own check. Binary ops and casts need an instruction, selects need a select instruction, and casts need a supported width pair. On success, the expression's variables are exactly the ids of the plain and input leaves. Its constants are exactly the concrete operands. |
| `SymbolProofs.BinaryConversion` | src/ExecutionEngine/Symbol.h:199-289 | In all three binary shapes at least one operand is symbolic. A non-instruction value fails. Otherwise the result is `Op(opcode, lhs, rhs)`, with symbolic operands converted and concrete ones made constants, in source order. The first failing operand's error propagates. |
| `SymbolProofs.SelectConversion` | src/ExecutionEngine/Symbol.h:297-437 | In all four select shapes the condition is symbolic. A non-select value fails. Otherwise the result is `Ite(cond, then, else)`, with the three encodings in their source positions. |
| `SymbolProofs.GepConversion` | src/ExecutionEngine/Symbol.h:496-524 | The base is always concrete and becomes a constant. Only the offset is converted, and the result is `App(Const(base), offset)`. It fails exactly when the offset fails. |
| `SymbolProofs.CastBoolToInt` | src/ExecutionEngine/Symbol.h:459-466 | An i1 to i32 cast converts to `Ite(e, 1, 0)`. It evaluates to 1 when the operand evaluates to true and to 0 when it evaluates to false. |
| `SymbolProofs.CastIntToBool` | src/ExecutionEngine/Symbol.h:467-472 | An i32 to i1 cast converts to `Diseq(e, 0)`. On an integer operand it evaluates to a boolean, which is false exactly when the operand is 0. |
| `SymbolProofs.UnsupportedCastFails` | src/ExecutionEngine/Symbol.h:473-475 | Every other width pair is an `UnsupportedCast` error naming both types, whatever the operand. |
| `SymbolProofs.ConvertedCastIsSupported` | src/ExecutionEngine/Symbol.h:453-476 | A cast that converts wraps an instruction and is one of the two supported width pairs. |
| `SymbolProofs.ConvertPreservesMeaning` | src/ExecutionEngine/Symbol.h:199-524 | Whenever a symbol converts, its expression evaluates to the value the symbol stands for under every interpretation. Selects choose an operand, and pointer offsets apply the base to the offset. Casts take the C meaning the encoder assumes, chosen by widths alone: a boolean widens to 1 or 0, and an integer narrows to a test against zero. |
| `SymbolProofs.WellNumberedOperandsPrecede` | src/ExecutionEngine/Symbol.h:85-103 | When every operand was numbered before its user, every symbol reachable through the operands has a smaller id. So no symbol is reachable from itself. |
| `SymbolProofs.CreateKeepsNumbering` | src/ExecutionEngine/Symbol.h:101-103 | Building a symbol over operands made earlier by the same counter keeps the data-flow numbering. The new id occurs nowhere among its operands. |
| `CastFinding.ConvertAsWritten` | src/ExecutionEngine/Symbol.h:199-524 | The conversion with the source's control flow. Where it returns or aborts, it agrees with `Symbols.ConvertToExpr`, and it never aborts with an unsupported cast. It falls off the end exactly when the corrected conversion's first failure is an unsupported cast, and only if such a cast is reachable. |
| `CastFinding.UnsupportedCastNeverReturns` | src/ExecutionEngine/Symbol.h:453-476 | A symbol with an unsupported instruction cast anywhere below it never yields an expression as written. |
| `CastFinding.UnsupportedCastFallsOffEnd` | src/ExecutionEngine/Symbol.h:473-476 | For every unsupported width pair the as-written conversion neither returns nor aborts. |
| `CastFinding.I8ToI32FallsOffEnd` | src/ExecutionEngine/Symbol.h:473-476 | A concrete i8 to i32 extension of an argument falls off the end of the as-written conversion. |
| `CastFinding.NestedCastFallsOffEnd` | src/ExecutionEngine/Symbol.h:459-476 | A supported i1 to i32 cast over an i8 to i1 cast of an argument falls off the end too, inside its operand's conversion. |

## Left out

- The `dump` methods, `Symbol::dump(Value*)` and `getPredicateStr` are left out: they only write to the console, and the last two have no body in the header.
- LLVM `Value`, `Instruction` and `Type` are reduced to the record in `Ir`. Their real structure is outside this header.
- `Logic/Expression.h` is not part of this model. Its builders are constructors here, and the evaluator interprets opcodes, constants and application through parameters rather than solver terms.
- The commented-out array-bounds constraint of the pointer-offset conversion is dead code and is not modelled.
- A bare `SelectOpSymbol` built through its public two-argument constructor is not modelled. It is only used as a base class, and it would convert through the base conversion, whose body is not in this header.
- `shared_ptr` ownership and the process-wide sharing of the static counter are memory and concurrency concerns. The model uses immutable values and a counter held in a `Factory` value.
- Cast opcodes are not modelled: the source decides on the two widths alone. A sign-extending i1 to i32 cast therefore gets the same `Ite(e, 1, 0)` encoding as a zero extension, in the source and in the model. Likewise an i32 to i1 truncation is encoded as a test against zero rather than as taking the low bit.
- The fault-localization driver in `src/Backends/SniperBackend/FaultLocalization.h` is not modelled. Its `run`, `allDiagnosis`, `allMinMCS` and `avToClauses` are declarations only, and their work goes through the Yices solver, hitting-set and trace-combination code, none of which is part of this model.

## Findings

| source | as written | input that shows it | evidently intended | confidence | as-written member | corrected member |
|---|---|---|---|---|---|---|
| src/ExecutionEngine/Symbol.h:473-475 | The unsupported-cast branch calls `assert("Unsupported cast operation!")`. A string literal is a non-null pointer, so the assert never aborts, and `convertToExpr` then reaches the end of a value-returning function without a `return` (undefined behaviour). | A cast symbol whose instruction has type i32 and whose operand has type i8, such as `sext i8 %a to i32`. | Stop with an unsupported-cast error instead of producing an undefined expression. | high; not executed | `CastFinding.ConvertAsWritten`, with `CastFinding.UnsupportedCastFallsOffEnd`, `CastFinding.I8ToI32FallsOffEnd` and `CastFinding.NestedCastFallsOffEnd` | `Symbols.ConvertToExpr`, with `SymbolProofs.UnsupportedCastFails` |
