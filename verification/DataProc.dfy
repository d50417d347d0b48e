/** Additions, subtractions, compares and selections against the architecture's own rule that register 31 reads as
    zero or is the stack pointer. */
module DataProc {
  import opened Words
  import opened Instructions
  import opened Machine
  import opened LoadStore
  import opened Flags
  import opened DataBits
  import opened Arithmetic
  import opened Decode
  import opened DataDecode

  // ---- the architecture ----------------------------------------------------------------------------

  type Regs31 = x: seq<Word> | |x| == 31 witness seq<Word>(31, _ => 0)

  datatype Arch = Arch(x: Regs31, sp: Word, pc: Word, nzcv: nat)

  /** What a program sees of the register file. */
  function View(s: Regs): Arch {
    Arch(s.r[..31], s.r[SP], s.pc, s.nzcv)
  }

  /** Register n of 32, where 31 is zero. */
  function X(t: Arch, n: nat): Word
    requires n < 32
  {
    if n == 31 then 0 else t.x[n]
  }

  /** Register n of 32, where 31 is the stack pointer. */
  function XSP(t: Arch, n: nat): Word
    requires n < 32
  {
    if n == 31 then t.sp else t.x[n]
  }

  function WriteX(t: Arch, n: nat, v: Word): Arch
    requires n < 32
  {
    if n == 31 then t else t.(x := t.x[n := v])
  }

  function WriteXSP(t: Arch, n: nat, v: Word): Arch
    requires n < 32
  {
    if n == 31 then t.(sp := v) else t.(x := t.x[n := v])
  }

  function Next4(t: Arch): Arch { t.(pc := (t.pc + 4) % B64) }

  /** The architecture's addition: x + y + carry, or x + NOT(y) + 1. */
  function AddSub(m: nat, sub: bool, x: nat, y: nat): (nat, nat)
    requires Modulus(m)
  {
    AddFlags(m, x % m, if sub then Not(m, y % m) else y % m, if sub then 1 else 0)
  }

  /** ADD, ADDS, SUB or SUBS of x and y into register rd; without flags, rd may be the stack pointer if sp is
      allowed. */
  function ArchAddSub(raw: Raw, t: Arch, x: nat, y: nat, sp: bool): Arch {
    var m, s := Width(BitAt(raw, 0x8000_0000)), BitAt(raw, 0x2000_0000);
    var (r, f) := AddSub(m, BitAt(raw, 0x4000_0000), x, y);
    if s then Next4(WriteX(t, Rt(raw), r).(nzcv := f))
    else if sp then Next4(WriteXSP(t, Rt(raw), r))
    else Next4(WriteX(t, Rt(raw), r))
  }

  /** What a conditional compare compares with: a register or a five-bit number. */
  function Compared(raw: Raw, op: Op, t: Arch): Word {
    if op == CompareImm then Rm(raw) else X(t, Rm(raw))
  }

  /** The address of ADR, relative to pc, or of ADRP, relative to its page. */
  function ArchAdr(raw: Raw, pc: Word): Word {
    var imm := Sx(raw / 32 % 0x8_0000 * 4 + raw / 0x2000_0000 % 4, 0x10_0000);
    var base := if BitAt(raw, 0x8000_0000) then pc - pc % 0x1000 else pc;
    Add(base, if BitAt(raw, 0x8000_0000) then imm * 0x1000 % B64 else imm)
  }

  /** The number MOVZ or MOVN moves: sixteen bits in place, or the complement of that. */
  function ArchWide(raw: Raw): Word {
    MovedNumber(Sf(raw), Opc(raw) == 0, Wide(raw), WideShift(raw))
  }

  function MovedNumber(sf: bool, negated: bool, wide: nat, k: nat): Word {
    Moved(sf, negated, Pow2(k) * wide)
  }

  function Moved(sf: bool, negated: bool, v: nat): Word {
    var m := Width(sf);
    if negated then Not(m, v % m) else v % m
  }

  /** The meaning of a word read off its fields; for additions, subtractions, compares, selections and moves of a
      number. */
  function ArchExec(raw: Raw, op: Op, t: Arch): Arch {
    var m, sub := Width(BitAt(raw, 0x8000_0000)), BitAt(raw, 0x4000_0000);
    var cc := raw / 0x1000 % 16;
    match op
    case MovImm =>
      Next4(WriteX(t, Rt(raw), if raw / 0x80_0000 % 8 <= 1 then ArchAdr(raw, t.pc) else ArchWide(raw)))
    case Immediate =>
      ArchAddSub(raw, t, XSP(t, Rn(raw)), raw / 0x400 % 0x1000 * (if BitAt(raw, 0x40_0000) then 0x1000 else 1), true)
    case Shifted =>
      ArchAddSub(raw, t, X(t, Rn(raw)), ShiftOp(Sf(raw), X(t, Rm(raw)), raw / 0x40_0000 % 4, raw / 0x400 % 64), false)
    case Extended =>
      ArchAddSub(raw, t, XSP(t, Rn(raw)), Shl(Extend(X(t, Rm(raw)), raw / 0x2000 % 8), raw / 0x400 % 8), true)
    case WithCarry =>
      var y := if sub then Not(m, X(t, Rm(raw)) % m) else X(t, Rm(raw)) % m;
      var (r, f) := AddFlags(m, X(t, Rn(raw)) % m, y, Carry(t.nzcv));
      if BitAt(raw, 0x2000_0000) then Next4(WriteX(t, Rt(raw), r).(nzcv := f)) else Next4(WriteX(t, Rt(raw), r))
    case CompareReg | CompareImm =>
      Next4(t.(nzcv := if Cond(t.nzcv, cc) then AddSub(m, sub, X(t, Rn(raw)), Compared(raw, op, t)).1
        else raw % 16 * FLAG_V))
    case Choose(how) =>
      Next4(WriteX(t, Rt(raw), ArchChosen(how, m, Cond(t.nzcv, cc), X(t, Rn(raw)) % m, X(t, Rm(raw)) % m)))
  }

  /** CSEL, CSINC, CSINV and CSNEG: the second choice is b, b + 1, NOT(b) or 0 - b. */
  function ArchChosen(how: Select, m: nat, holds: bool, a: nat, b: nat): (v: nat)
    requires Modulus(m) && a < m && b < m
    ensures v < m
  {
    if holds then a
    else match how
      case Sel => b
      case Inc => AddSub(m, false, b, 1).0
      case Inv => Not(m, b)
      case Neg => AddSub(m, true, 0, b).0
  }

  // ---- refinement -------------------------------------------------------------------------------------

  lemma ReadsAgree(s: Regs, n: nat)
    requires s.r[ZR] == 0 && n < 32
    ensures s.r[Xr(n)] == X(View(s), n) && s.r[Xsp(n)] == XSP(View(s), n)
  {
  }

  lemma WritesAgree(s: Regs, n: nat, v: Word)
    requires s.r[ZR] == 0 && n < 32
    ensures View(SetR(s, Xw(n), v)) == WriteX(View(s), n, v) && SetR(s, Xw(n), v).r[ZR] == 0
    ensures View(SetR(s, Xsp(n), v)) == WriteXSP(View(s), n, v) && SetR(s, Xsp(n), v).r[ZR] == 0
  {
    assert SetR(s, Xw(n), v).r[..31] == if n == 31 then s.r[..31] else s.r[..31][n := v];
    assert SetR(s, Xsp(n), v).r[..31] == if n == 31 then s.r[..31] else s.r[..31][n := v];
  }

  lemma ModAdd(m: nat, a: nat, z: nat)
    requires Modulus(m)
    ensures (a + z) % m == (a % m + z) % m
  {
  }

  /** Subtracting modulo m is adding the complement and one. */
  lemma PlainSum(m: nat, a: nat, y: nat, sub: bool)
    requires Modulus(m) && y < m
    ensures Summed(m, sub, a, y) == AddSub(m, sub, a, y).0
  {
    assert y % m == y;
    ModAdd(m, a, if sub then m - y else y);
  }

  /** After reading register 31 as zero, an instruction leaves its slot zero and does what the architecture says. */
  predicate Refines(raw: Raw, i: ArithInst, s: Regs) {
    ExecArith(i, s).r[ZR] == 0 && View(ExecArith(i, s)) == ArchExec(raw, i.fn.op, View(s))
  }

  /** A result and flags written to a register named by the word. */
  lemma Written(raw: Raw, s: Regs, v: Word, f: nat, sp: bool)
    requires s.r[ZR] == 0
    ensures var n := Rt(raw);
      var s' := SetR(s, if sp then Xsp(n) else Xw(n), v).(nzcv := f);
      Advance(s').r[ZR] == 0
      && View(Advance(s')) == Next4((if sp then WriteXSP(View(s), n, v) else WriteX(View(s), n, v)).(nzcv := f))
  {
    WritesAgree(s, Rt(raw), v);
  }

  lemma AdrRefines(raw: Raw, s: Regs)
    requires s.r[ZR] == 0 && raw / 0x80_0000 % 8 <= 1
    ensures Refines(raw, DecodeAdr(raw, s.pc), s)
  {
    var i := DecodeAdr(raw, s.pc);
    Written(raw, s, i.imm, s.nzcv, false);
  }

  /** The three forms of addition and subtraction, given that their operands agree. */
  lemma AddSubRefines(raw: Raw, i: ArithInst, s: Regs, x: Word, y: nat, sp: bool)
    requires s.r[ZR] == 0 && (i.fn.op == Immediate || i.fn.op == Shifted || i.fn.op == Extended)
    requires i.fn.sf == BitAt(raw, 0x8000_0000) && i.fn.sub == BitAt(raw, 0x4000_0000)
      && i.fn.flags == BitAt(raw, 0x2000_0000)
    requires i.rd == (if i.fn.flags || !sp then Xw(Rt(raw)) else Xsp(Rt(raw)))
    requires s.r[i.rn] == x && Operand(i, s) == y
    ensures ExecArith(i, s).r[ZR] == 0 && View(ExecArith(i, s)) == ArchAddSub(raw, View(s), x, y, sp)
  {
    var (r, f) := AddSub(Width(i.fn.sf), i.fn.sub, x, y);
    AddSubExec(i, s, x, y);
    Written(raw, s, r, if i.fn.flags then f else s.nzcv, !i.fn.flags && sp);
  }

  lemma AddSubExec(i: ArithInst, s: Regs, x: Word, y: nat)
    requires i.fn.op == Immediate || i.fn.op == Shifted || i.fn.op == Extended
    requires s.r[i.rn] == x && Operand(i, s) == y
    ensures var (r, f) := AddSub(Width(i.fn.sf), i.fn.sub, x, y);
      ExecArith(i, s) == Advance(SetR(s, i.rd, r).(nzcv := if i.fn.flags then f else s.nzcv))
  {
    var m := Width(i.fn.sf);
    PlainSum(m, x, y % m, i.fn.sub);
    Reduced(m, i.fn.sub, x, y);
  }

  lemma Reduced(m: nat, sub: bool, x: nat, y: nat)
    requires Modulus(m)
    ensures AddSub(m, sub, x, y % m) == AddSub(m, sub, x, y)
  {
    assert y % m % m == y % m;
  }

  lemma ImmediateRefines(raw: Raw, s: Regs)
    requires s.r[ZR] == 0
    ensures Refines(raw, DecodeAddSubImm(raw), s)
  {
    ReadsAgree(s, Rn(raw));
    var i := DecodeAddSubImm(raw);
    AddSubRefines(raw, i, s, XSP(View(s), Rn(raw)), i.imm, true);
  }

  lemma ShiftedRefines(raw: Raw, s: Regs, i: ArithInst)
    requires s.r[ZR] == 0 && DecodeArithReg(raw) == Some(i) && i.fn.op == Shifted
    ensures Refines(raw, i, s)
  {
    ShiftedExec(raw, s, BitAt(raw, 0x2000_0000), i);
  }

  lemma ShiftedExec(raw: Raw, s: Regs, flags: bool, i: ArithInst)
    requires s.r[ZR] == 0 && flags == BitAt(raw, 0x2000_0000)
    requires i == Operation(Shifted, Sf(raw), BitAt(raw, 0x4000_0000), flags, Xw(Rt(raw)), Xr(Rn(raw)), Xr(Rm(raw)),
                            raw / 0x40_0000 % 4, raw / 0x400 % 64, 0, 0)
    ensures Refines(raw, i, s)
  {
    ReadsAgree(s, Rn(raw));
    ReadsAgree(s, Rm(raw));
    AddSubRefines(raw, i, s, X(View(s), Rn(raw)), Operand(i, s), false);
  }

  lemma ExtendedRefines(raw: Raw, s: Regs, i: ArithInst)
    requires s.r[ZR] == 0 && DecodeArithReg(raw) == Some(i) && i.fn.op == Extended
    ensures Refines(raw, i, s)
  {
    ReadsAgree(s, Rn(raw));
    ReadsAgree(s, Rm(raw));
    AddSubRefines(raw, i, s, XSP(View(s), Rn(raw)), Operand(i, s), true);
  }

  lemma WithCarryRefines(raw: Raw, s: Regs, i: ArithInst)
    requires s.r[ZR] == 0 && DecodeArithReg(raw) == Some(i) && i.fn.op == WithCarry
    ensures Refines(raw, i, s)
  {
    ReadsAgree(s, Rn(raw));
    ReadsAgree(s, Rm(raw));
    var m := Width(i.fn.sf);
    var y := if i.fn.sub then Not(m, s.r[i.rm] % m) else s.r[i.rm] % m;
    CarryExec(i, s, m, y);
    var (r, f) := AddFlags(m, s.r[i.rn] % m, y, Carry(s.nzcv));
    Written(raw, s, r, if i.fn.flags then f else s.nzcv, false);
  }

  lemma CarryExec(i: ArithInst, s: Regs, m: nat, y: nat)
    requires i.fn.op == WithCarry && m == Width(i.fn.sf)
      && y == if i.fn.sub then Not(m, s.r[i.rm] % m) else s.r[i.rm] % m
    ensures var (r, f) := AddFlags(m, s.r[i.rn] % m, y, Carry(s.nzcv));
      ExecArith(i, s) == Advance(SetR(s, i.rd, r).(nzcv := if i.fn.flags then f else s.nzcv))
  {
  }

  lemma CompareRefines(raw: Raw, s: Regs, i: ArithInst)
    requires s.r[ZR] == 0 && DecodeArithReg(raw) == Some(i) && (i.fn.op == CompareReg || i.fn.op == CompareImm)
    ensures Refines(raw, i, s)
  {
    ReadsAgree(s, Rn(raw));
    ReadsAgree(s, Rm(raw));
    assert Operand(i, s) == Compared(raw, i.fn.op, View(s));
  }

  lemma ChooseRefines(raw: Raw, s: Regs, i: ArithInst)
    requires s.r[ZR] == 0 && DecodeArithReg(raw) == Some(i) && i.fn.op.Choose?
    ensures Refines(raw, i, s)
  {
    ReadsAgree(s, Rn(raw));
    ReadsAgree(s, Rm(raw));
    var m := Width(i.fn.sf);
    var a, b, holds := s.r[i.rn] % m, s.r[i.rm] % m, Cond(s.nzcv, i.cond);
    ChosenAgree(i.fn.op.how, m, holds, a, b);
    Written(raw, s, Chosen(i.fn.op.how, m, holds, a, b), s.nzcv, false);
  }

  lemma ChosenAgree(how: Select, m: nat, holds: bool, a: nat, b: nat)
    requires Modulus(m) && a < m && b < m
    ensures Chosen(how, m, holds, a, b) == ArchChosen(how, m, holds, a, b)
  {
    PlainSum(m, 0, b, true);
    PlainSum(m, b, 1, false);
  }
}
