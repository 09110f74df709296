/**
  The slice of the LLVM intermediate representation that the symbol encoder
  looks at. An LLVM value is reduced to the facts the encoder queries: whether
  it is an instruction (`dyn_cast<Instruction>`), whether it is a select
  instruction (`isa<SelectInst>`), the operator `mkOp` derives from it, its
  own type and the type of its first operand (`getOperand(0)->getType()`).
*/
module Ir {

  /** An LLVM type, as far as `isIntegerTy(n)` can tell types apart. */
  datatype Type = IntegerTy(bits: nat) | OtherTy

  /**
    One LLVM value. `key` stands for the identity of the object in memory, so
    two distinct values with otherwise equal attributes stay distinct.
    `opcode` names the whole operator `mkOp` derives from the instruction, the
    comparison predicate of a comparison included, so two comparisons that
    differ only in their predicate carry different opcodes here.
    In LLVM every select is an instruction. The conversion does not rely on
    it: it checks `isSelect` for selects and `isInstruction` for binary ops
    and casts, as the source does.
  */
  datatype Value = Value(
    key: nat,
    isInstruction: bool,
    isSelect: bool,
    opcode: nat,
    ty: Type,
    operandTy: Type)

  /** The boolean type `i1`. */
  const I1: Type := IntegerTy(1)

  /** The 32-bit integer type `i32`. */
  const I32: Type := IntegerTy(32)
}
