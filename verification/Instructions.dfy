/** Decoded instructions, as the interpreter caches them. */
module Instructions {
  import opened Words

  const INSTS_PER_PAGE := 1024

  datatype Select = Sel | Inc | Inv | Neg

  /** Arithmetic: a value computed when decoding, additions and subtractions with an immediate, a shifted or an extended
      register, additions and subtractions with carry, conditional compare and conditional select. */
  datatype Op = MovImm | Immediate | Shifted | Extended | WithCarry | CompareReg | CompareImm | Choose(how: Select)

  /** Two, four or eight bytes. */
  type Unit = u: nat | u == 2 || u == 4 || u == 8 witness 2

  datatype Logic = LAnd | LOrr | LEor

  /** The rest of data processing: moves, logical operations with an immediate or a shifted register, bitfields, and
      the operations on one, two and three registers. */
  datatype DataOp =
    | MovReg | MovKeep
    | LogicImm(kind: Logic, sets: bool) | LogicReg(kind: Logic, inverted: bool, sets: bool)
    | FieldU | FieldS | FieldInto | Extract
    | DivU | DivS | ShiftBy | Crc(castagnoli: bool)
    | FlipBits | FlipBytes(unit: Unit) | LeadZeros | LeadSigns
    | MulAdd(minus: bool) | MulLong(minus: bool, signed: bool) | MulHigh(signed: bool)

  /** Branches: always or to a register, with or without the return address; on a register, one of its bits, or the
      flags. */
  datatype Branch = Direct(link: bool) | ToRegister(link: bool) | OnZero(nonzero: bool, wide: bool) | OnBit(ones: bool)
    | OnCond

  /** The handlers that are modelled one by one, and every other handler by number. */
  datatype Handler =
    | LoadOff | LoadWb | LoadReg | StoreOff | StoreWb | StoreReg
    | VLoadOff | VLoadWb | VLoadReg | VStoreOff | VStoreWb | VStoreReg
    | LoadPair | StorePair | VLoadPair | VStorePair
    | Ldxr | Ldxp | Stxr | Stxp | DcZva | SimdLoadMulti | SimdStoreMulti
    | Ldr64Off | Ldr32Off | Ldrb64Off | Str64Off | Str32Off | Strb64Off
    | Ldr64Reg | Ldr32Reg | Ldrb64Reg | Str64Reg | Str32Reg | Strb64Reg
    | Ldp64Off | Stp64Off
    | Arith(op: Op, sf: bool, sub: bool, flags: bool)
    | Data(how: DataOp, sf: bool)
    | Jump(to: Branch)
    | Nop | Clrex
    | Other(n: nat)

  /** A handler with its pre-extracted operands. */
  datatype Inst = Inst(fn: Handler, imm: Word, imm2: Word, rd: byte, rn: byte, rm: byte, ra: byte,
                       cond: byte, sh: byte, amt: byte, sz: byte)
}
