/** The branch handlers. */
module Jumps {
  import opened Words
  import opened Instructions
  import opened Machine
  import opened LoadStore
  import opened Flags

  const LR := 30

  /** Whether the handler leaves the straight line, and where it goes. */
  predicate Taken(i: Inst, s: Regs)
    requires i.fn.Jump?
  {
    match i.fn.to
    case Direct(_) | ToRegister(_) => true
    case OnZero(nonzero, wide) => ((if wide then s.r[i.rn] else s.r[i.rn] % B32) == 0) != nonzero
    case OnBit(ones) => (s.r[i.rn] / Pow2(i.amt) % 2 == 1) == ones
    case OnCond => Cond(s.nzcv, i.cond)
  }

  function ExecJump(i: Inst, s: Regs): Regs
    requires i.fn.Jump?
  {
    match i.fn.to
    case Direct(link) => (if link then SetR(s, LR, i.imm2) else s).(pc := i.imm)
    case ToRegister(link) => (if link then SetR(s, LR, Add(s.pc, 4)) else s).(pc := s.r[i.rn])
    case _ => if Taken(i, s) then s.(pc := i.imm) else Advance(s)
  }

  predicate Links(to: Branch) { (to.Direct? || to.ToRegister?) && to.link }

  /** A branch writes the link register or nothing. */
  lemma JumpWrites(i: Inst, s: Regs, k: nat)
    requires i.fn.Jump? && k < 256 && (k != LR || !Links(i.fn.to))
    ensures ExecJump(i, s).r[k] == s.r[k]
  {
  }
}
