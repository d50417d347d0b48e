/** The data-processing handlers, whose operands were resolved when decoding. */
module Arithmetic {
  import opened Words
  import opened Instructions
  import opened Machine
  import opened LoadStore
  import opened Flags
  import opened DataBits
  import opened DataOps

  /** A decoded addition, subtraction, compare or selection. */
  type ArithInst = i: Inst | i.fn.Arith? witness Inst(Arith(MovImm, true, false, false), 0, 0, 0, 0, 0, 0, 0, 0, 0, 0)

  /** A decoded data-processing instruction. */
  type Dp = i: Inst | i.fn.Arith? || i.fn.Data? witness Inst(Data(MovReg, true), 0, 0, 0, 0, 0, 0, 0, 0, 0, 0)

  /** The second operand. */
  function Operand(i: ArithInst, s: Regs): nat {
    match i.fn.op
    case Immediate | CompareImm => i.imm
    case Shifted => ShiftOp(i.fn.sf, s.r[i.rm], i.sh, i.amt)
    case Extended => Shl(Extend(s.r[i.rm], i.sh), i.amt)
    case _ => s.r[i.rm]
  }

  function Put(i: ArithInst, s: Regs, v: Word): Regs { SetR(s, i.rd, v) }

  function ExecArith(i: ArithInst, s: Regs): Regs {
    var m := Width(i.fn.sf);
    var a, b := s.r[i.rn] % m, Operand(i, s) % m;
    match i.fn.op
    case MovImm => Advance(Put(i, s, i.imm))
    case Immediate | Shifted | Extended =>
      if i.fn.flags then
        var (r, f) := AddFlags(m, a, if i.fn.sub then Not(m, b) else b, if i.fn.sub then 1 else 0);
        Advance(Put(i, s, r).(nzcv := f))
      else Advance(Put(i, s, Summed(m, i.fn.sub, s.r[i.rn], b)))
    case WithCarry =>
      var c := Carry(s.nzcv);
      var y := if i.fn.sub then Not(m, b) else b;
      if i.fn.flags then
        var (r, f) := AddFlags(m, a, y, c);
        Advance(Put(i, s, r).(nzcv := f))
      else Advance(Put(i, s, (a + y + c) % m))
    case CompareReg | CompareImm =>
      var f := if !Cond(s.nzcv, i.cond) then i.amt * FLAG_V
               else AddFlags(m, a, if i.fn.sub then Not(m, b) else b, if i.fn.sub then 1 else 0).1;
      Advance(s.(nzcv := f))
    case Choose(how) =>
      Advance(Put(i, s, Chosen(how, m, Cond(s.nzcv, i.cond), a, b)))
  }

  /** Addition or subtraction modulo m, without flags. */
  function Summed(m: nat, sub: bool, a: nat, b: nat): (r: nat)
    requires Modulus(m) && b < m
    ensures r < m
  {
    (a + if sub then m - b else b) % m
  }

  function Chosen(how: Select, m: nat, holds: bool, a: nat, b: nat): (v: nat)
    requires Modulus(m) && a < m && b < m
    ensures v < m
  {
    if holds then a else match how case Sel => b case Inc => (b + 1) % m case Inv => Not(m, b) case Neg => (m - b) % m
  }

  function Exec(i: Dp, s: Regs): Regs {
    if i.fn.Data? then ExecData(i, s) else ExecArith(i, s)
  }

  predicate OnlyFlags(i: Dp) {
    i.fn.Arith? && (i.fn.op == CompareReg || i.fn.op == CompareImm)
  }

  /** An instruction writes its destination and no other register slot; a compare writes none. */
  lemma ExecWrites(i: Dp, s: Regs, k: nat)
    requires k < 256 && (k != i.rd || OnlyFlags(i))
    ensures Exec(i, s).r[k] == s.r[k]
  {
  }
}
