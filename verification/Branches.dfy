/** Branches, hints, barriers and DC ZVA: decoding, and the branches against the architecture. */
module Branches {
  import opened Words
  import opened Instructions
  import opened Machine
  import opened LoadStore
  import opened Flags
  import opened DataBits
  import opened Jumps
  import opened Arithmetic
  import opened Decode
  import opened DataDecode
  import opened DataProc

  // ---- decoding --------------------------------------------------------------------------------

  /** A branch to a target known when decoding, or to a register. */
  function BranchTo(to: Branch, rn: byte, cond: byte, amt: byte, target: Word, next: Word): Inst {
    Inst(Jump(to), target, next, 0, rn, 0, 0, cond, 0, amt, 0)
  }

  function Offset26(raw: Raw): Word { Sx(raw % 0x400_0000 * 4, 0x800_0000) }
  function Offset19(raw: Raw): Word { Sx(raw / 32 % 0x8_0000 * 4, 0x10_0000) }
  function Offset14(raw: Raw): Word { Sx(raw / 32 % 0x4000 * 4, 0x8000) }

  function BitNumber(raw: Raw): nat { raw / 0x8000_0000 * 32 + raw / 0x8_0000 % 32 }

  function DecodeToRegister(raw: Raw): Option<Inst> {
    var opc := raw / 0x20_0000 % 16;
    if Rm(raw) != 31 || raw / 0x400 % 64 != 0 || Rt(raw) != 0 then None
    else if opc == 0 || opc == 2 then Some(BranchTo(ToRegister(false), Xr(Rn(raw)), 0, 0, 0, 0))
    else if opc == 1 then Some(BranchTo(ToRegister(true), Xr(Rn(raw)), 0, 0, 0, 0))
    else None
  }

  /** Hints, barriers and cache maintenance; None for the moves to and from system registers. */
  function DecodeSystem(raw: Raw): Option<Inst> {
    var l, op0, op1 := BitAt(raw, 0x20_0000), raw / 0x8_0000 % 4, raw / 0x1_0000 % 8;
    var crn, crm, op2 := raw / 0x1000 % 16, raw / 0x100 % 16, raw / 32 % 8;
    var nop := Blank(Nop, 0, 0, 0);
    if !l && op0 == 0 && crn == 2 && op1 == 3 && Rt(raw) == 31 then Some(nop)
    else if !l && op0 == 0 && crn == 3 && op1 == 3 && Rt(raw) == 31 then
      if op2 == 2 then Some(Blank(Clrex, 0, 0, 0)) else if op2 >= 4 then Some(nop) else None
    else if !l && op0 == 0 && crn == 4 && Rt(raw) == 31 then
      if op1 == 3 && op2 >= 6 then Some(nop) else None
    else if op0 == 1 then
      if l then None
      else if op1 == 3 && crn == 7 && crm == 4 && op2 == 1 then Some(Blank(DcZva, Xr(Rt(raw)), 0, 0))
      else Some(nop)
    else None
  }

  /** The group of branches, exceptions and system instructions; None for the exceptions too. */
  function DecodeBranch(raw: Raw, pc: Word): Option<Inst> {
    if raw / 0x400_0000 % 32 == 5 then
      Some(BranchTo(Direct(BitAt(raw, 0x8000_0000)), 0, 0, 0, Add(pc, Offset26(raw)), Add(pc, 4)))
    else if raw / 0x200_0000 % 64 == 0x1a then
      Some(BranchTo(OnZero(BitAt(raw, 0x100_0000), Sf(raw)), Xr(Rt(raw)), 0, 0, Add(pc, Offset19(raw)), 0))
    else if raw / 0x200_0000 % 64 == 0x1b then
      Some(BranchTo(OnBit(BitAt(raw, 0x100_0000)), Xr(Rt(raw)), 0, BitNumber(raw), Add(pc, Offset14(raw)), 0))
    else if raw / 0x100_0000 == 0x54 && !BitAt(raw, 0x10) then
      Some(BranchTo(OnCond, 0, raw % 16, 0, Add(pc, Offset19(raw)), 0))
    else if raw / 0x200_0000 == 0x6b then DecodeToRegister(raw)
    else if raw / 0x40_0000 == 0x354 then DecodeSystem(raw)
    else None
  }

  // ---- the architecture ------------------------------------------------------------------------

  /** Whether a branch is taken. */
  predicate ArchTaken(raw: Raw, to: Branch, t: Arch) {
    match to
    case Direct(_) | ToRegister(_) => true
    case OnZero(nonzero, _) => (X(t, Rt(raw)) % (if Sf(raw) then B64 else B32) == 0) != nonzero
    case OnBit(ones) => (X(t, Rt(raw)) / Pow2(BitNumber(raw)) % 2 == 1) == ones
    case OnCond => Cond(t.nzcv, raw % 16)
  }

  /** Where it goes when it is: an offset from pc, or a register. */
  function ArchTarget(raw: Raw, to: Branch, t: Arch): Word {
    match to
    case Direct(_) => Add(t.pc, Offset26(raw))
    case OnZero(_, _) | OnCond => Add(t.pc, Offset19(raw))
    case OnBit(_) => Add(t.pc, Offset14(raw))
    case ToRegister(_) => X(t, Rn(raw))
  }

  function ArchBranch(raw: Raw, to: Branch, t: Arch): Arch {
    var t' := if Links(to) then WriteX(t, 30, (t.pc + 4) % B64) else t;
    t'.(pc := if ArchTaken(raw, to, t) then ArchTarget(raw, to, t) else (t.pc + 4) % B64)
  }

  /** The operands of a branch are where the word says. */
  predicate BranchOf(raw: Raw, pc: Word, i: Inst) {
    i.fn.Jump?
    && match i.fn.to
       case Direct(_) => i.imm == Add(pc, Offset26(raw)) && i.imm2 == Add(pc, 4)
       case OnZero(_, wide) => i.rn == Xr(Rt(raw)) && wide == Sf(raw) && i.imm == Add(pc, Offset19(raw))
       case OnBit(_) => i.rn == Xr(Rt(raw)) && i.amt == BitNumber(raw) && i.imm == Add(pc, Offset14(raw))
       case OnCond => i.cond == raw % 16 && i.imm == Add(pc, Offset19(raw))
       case ToRegister(_) => i.rn == Xr(Rn(raw))
  }

  lemma BranchForm(raw: Raw, pc: Word)
    requires DecodeBranch(raw, pc).Some? && DecodeBranch(raw, pc).value.fn.Jump?
    ensures BranchOf(raw, pc, DecodeBranch(raw, pc).value)
  {
  }

  lemma BranchMeans(raw: Raw, i: Inst, s: Regs)
    requires s.r[ZR] == 0 && BranchOf(raw, s.pc, i)
    ensures ExecJump(i, s).r[ZR] == 0 && View(ExecJump(i, s)) == ArchBranch(raw, i.fn.to, View(s))
  {
    ReadsAgree(s, Rt(raw));
    ReadsAgree(s, Rn(raw));
    assert SetR(s, LR, Add(s.pc, 4)).r[..31] == s.r[..31][30 := Add(s.pc, 4)];
  }

  /** The branches of the encoding tables: B, BL, CBZ, CBNZ, TBZ, TBNZ, B.cond, BR, RET and BLR. */
  function BranchTable(raw: Raw): Option<Branch> {
    var top := raw / 0x100_0000 % 0x80;
    if raw / 0x400_0000 == 0x05 then Some(Direct(false))
    else if raw / 0x400_0000 == 0x25 then Some(Direct(true))
    else if top == 0x34 then Some(OnZero(false, Sf(raw)))
    else if top == 0x35 then Some(OnZero(true, Sf(raw)))
    else if top == 0x36 then Some(OnBit(false))
    else if top == 0x37 then Some(OnBit(true))
    else if raw / 0x100_0000 == 0x54 && !BitAt(raw, 0x10) then Some(OnCond)
    else RegisterTable(raw - 32 * Rn(raw))
  }

  /** By the word with its register cleared. */
  function RegisterTable(raw: int): Option<Branch> {
    if raw == 0xd61f_0000 || raw == 0xd65f_0000 then Some(ToRegister(false))
    else if raw == 0xd63f_0000 then Some(ToRegister(true))
    else None
  }

  function BranchIn(i: Option<Inst>): Option<Branch> {
    if i.Some? && i.value.fn.Jump? then Some(i.value.fn.to) else None
  }

  lemma Digits(raw: Raw)
    ensures raw - 32 * Rn(raw) == Rt(raw) + 0x400 * (raw / 0x400 % 64) + 0x1_0000 * Rm(raw)
      + 0x20_0000 * (raw / 0x20_0000 % 16) + 0x200_0000 * (raw / 0x200_0000)
  {
    DivDiv(raw, 32, 32);
    DivDiv(raw, 0x400, 64);
    DivDiv(raw, 0x1_0000, 32);
    DivDiv(raw, 0x20_0000, 16);
  }

  lemma RegisterListed(raw: Raw)
    ensures RegisterTable(raw - 32 * Rn(raw)) ==
      if raw / 0x200_0000 == 0x6b then BranchIn(DecodeToRegister(raw)) else None
  {
    Digits(raw);
  }

  lemma TopOf(raw: Raw)
    ensures raw / 0x400_0000 % 32 == 5 <==> raw / 0x400_0000 == 0x05 || raw / 0x400_0000 == 0x25
    ensures (raw / 0x400_0000 == 0x25) == BitAt(raw, 0x8000_0000) || raw / 0x400_0000 % 32 != 5
    ensures raw / 0x200_0000 % 64 == raw / 0x100_0000 % 0x80 / 2
    ensures BitAt(raw, 0x100_0000) <==> raw / 0x100_0000 % 0x80 % 2 == 1
    ensures raw / 0x200_0000 == raw / 0x100_0000 / 2 && raw / 0x400_0000 == raw / 0x100_0000 / 4
  {
    DivDiv(raw, 0x100_0000, 2);
    DivDiv(raw, 0x100_0000, 4);
    DivDiv(raw, 0x400_0000, 32);
    TopByte(raw / 0x100_0000);
  }

  lemma TopByte(q: nat)
    ensures q / 2 % 64 == q % 0x80 / 2 && q % 0x80 % 2 == q % 2
  {
    var h, c := q / 0x80, q % 0x80;
    DivModUnique(q, 2, 64 * h + c / 2, c % 2);
    DivModUnique(64 * h + c / 2, 64, h, c / 2);
  }

  /** The decoder finds a branch exactly where the tables have one, and the same. */
  lemma BranchListed(raw: Raw, pc: Word)
    ensures BranchIn(DecodeBranch(raw, pc)) == BranchTable(raw)
  {
    TopOf(raw);
    RegisterListed(raw);
    SystemIsNoBranch(raw);
  }

  lemma SystemIsNoBranch(raw: Raw)
    ensures BranchIn(DecodeSystem(raw)).None?
  {
  }

  /** Every branch of the tables is accepted, and goes, links and falls through as the architecture says. */
  lemma BranchRefines(raw: Raw, s: Regs)
    requires s.r[ZR] == 0 && BranchTable(raw).Some?
    ensures BranchIn(DecodeBranch(raw, s.pc)).Some?
    ensures var s' := ExecJump(DecodeBranch(raw, s.pc).value, s);
      s'.r[ZR] == 0 && View(s') == ArchBranch(raw, BranchTable(raw).value, View(s))
  {
    BranchListed(raw, s.pc);
    BranchForm(raw, s.pc);
    BranchMeans(raw, DecodeBranch(raw, s.pc).value, s);
  }

  /** The flags a subtraction leaves, and the next address. */
  lemma AfterSubtraction(i: ArithInst, s: Regs, m: nat, a: nat, b: nat) returns (s': Regs)
    requires i.fn.op == Immediate || i.fn.op == Shifted || i.fn.op == Extended
    requires i.fn.sub && i.fn.flags && m == Width(i.fn.sf) && a == s.r[i.rn] % m && b == Operand(i, s) % m
    ensures s' == ExecArith(i, s) && s'.nzcv == AddFlags(m, a, Not(m, b), 1).1 && s'.pc == (s.pc + 4) % B64
  {
    s' := ExecArith(i, s);
    AddSubExec(i, s, s.r[i.rn], Operand(i, s));
  }

  lemma BranchAfter(j: Inst, s: Regs, m: nat, a: nat, b: nat)
    requires Modulus(m) && a < m && b < m && j.fn == Jump(OnCond) && j.cond < 16
    requires s.nzcv == AddFlags(m, a, Not(m, b), 1).1
    ensures ExecJump(j, s).pc == if Compares(j.cond, m, a, b) then j.imm else (s.pc + 4) % B64
  {
    CondAfterSubs(m, a, b, j.cond);
  }

  /** A subtraction that sets flags, then a conditional branch: it is taken exactly when its comparison holds between
      the numbers subtracted, unsigned or signed, at both sizes. */
  lemma CompareAndBranch(i: ArithInst, j: Inst, s: Regs, m: nat, a: nat, b: nat)
    requires i.fn.op == Immediate || i.fn.op == Shifted || i.fn.op == Extended
    requires i.fn.sub && i.fn.flags && m == Width(i.fn.sf) && a == s.r[i.rn] % m && b == Operand(i, s) % m
    requires j.fn == Jump(OnCond) && j.cond < 16
    ensures ExecJump(j, ExecArith(i, s)).pc == if Compares(j.cond, m, a, b) then j.imm else (s.pc + 8) % B64
  {
    var s' := AfterSubtraction(i, s, m, a, b);
    BranchAfter(j, s', m, a, b);
    NextTwo(s.pc);
  }

  lemma NextTwo(pc: Word)
    ensures ((pc + 4) % B64 + 4) % B64 == (pc + 8) % B64
  {
  }
}
