/** The handlers of data processing beyond addition, subtraction and selection. */
module DataOps {
  import opened Words
  import opened Instructions
  import opened Machine
  import opened LoadStore
  import opened WordBits
  import opened DataBits

  type DataInst = i: Inst | i.fn.Data? witness Inst(Data(MovReg, true), 0, 0, 0, 0, 0, 0, 0, 0, 0, 0)

  /** The operands decoding extracts from the word. */
  datatype Operands = Operands(imm: Word, imm2: Word, sh: nat, amt: nat, sz: nat)

  /** What a handler computes from its operands and from three registers. */
  function ValueOf(how: DataOp, sf: bool, o: Operands, a: Word, b: Word, c: Word): Word {
    var m, size := Width(sf), BitWidth(sf);
    match how
    case MovReg => b % m
    case MovKeep => OrW(AndW(a, o.imm2), o.imm) % m
    case LogicImm(kind, _) => LogicOf(kind, a % m, o.imm % m)
    case LogicReg(kind, inverted, _) => LogicOf(kind, a % m, Complemented(m, inverted, ShiftOp(sf, b, o.sh, o.amt)))
    case FieldU => WordOf(FieldUnsigned(size, BitsOf(a), BitsOf(o.imm), BitsOf(o.imm2), o.amt))
    case FieldS => WordOf(FieldSigned(size, BitsOf(a), BitsOf(o.imm), BitsOf(o.imm2), o.amt, o.sh % size))
    case FieldInto => WordOf(FieldInserted(size, BitsOf(c), BitsOf(a), BitsOf(o.imm), BitsOf(o.imm2), o.amt))
    case Extract => WordOf(Extracted(size, BitsOf(a), BitsOf(b), o.amt % size))
    case DivU => DivUnsigned(a % m, b % m)
    case DivS => DivSigned(m, a % m, b % m)
    case ShiftBy => ShiftOp(sf, a, o.sh, b % size)
    case Crc(castagnoli) => CrcBytes(if castagnoli then CRC_CASTAGNOLI else CRC_IEEE, a % B32, b, o.sz)
    case FlipBits => WordOf(Flipped(size, BitsOf(a)))
    case FlipBytes(u) => WordOf(FlipUnits(sf, u, BitsOf(a)))
    case LeadZeros => ZerosAbove(sf, a % m)
    case LeadSigns => SignsAbove(sf, BitsOf(a))
    case MulAdd(minus) => Accumulated(m, minus, c % m, (a % m) * (b % m))
    case MulLong(minus, signed) => Accumulated(B64, minus, c, Signed(signed, a) * Signed(signed, b))
    case MulHigh(signed) => High(signed, a, b)
  }

  function OperandsOf(i: Inst): Operands { Operands(i.imm, i.imm2, i.sh, i.amt, i.sz) }

  function DataValue(i: DataInst, s: Regs): Word {
    ValueOf(i.fn.how, i.fn.sf, OperandsOf(i), s.r[i.rn], s.r[i.rm], s.r[i.ra])
  }

  predicate Sets(how: DataOp) {
    (how.LogicImm? || how.LogicReg?) && how.sets
  }

  /** The result and its flags are written, and the program goes on. */
  function Finish(i: DataInst, v: Word, s: Regs): Regs {
    Advance(SetR(s, i.rd, v).(nzcv := if Sets(i.fn.how) then LogicFlags(Width(i.fn.sf), v) else s.nzcv))
  }

  function ExecData(i: DataInst, s: Regs): Regs {
    Finish(i, DataValue(i, s), s)
  }
}
