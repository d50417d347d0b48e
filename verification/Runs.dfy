/** Whole runs of decoded words: the zero register reads zero, and the stack pointer moves only where a word names
    it. */
module Runs {
  import opened Words
  import opened Instructions
  import opened FlatMemory
  import opened Machine
  import opened LoadStore
  import opened Handlers
  import opened StoreLaws
  import opened Decode
  import opened Arithmetic
  import opened DataDecode
  import opened Branches

  // ---- the decoder ----------------------------------------------------------------------------

  /** Words of the load and store group, by bits 28:25. */
  predicate LdStGroup(raw: Raw) {
    var op0 := raw / 0x200_0000 % 16;
    op0 == 4 || op0 == 6 || op0 == 12 || op0 == 14
  }

  /** The modelled decoders: loads and stores, branches and data processing. */
  function Decoded(raw: Raw, pc: Word): Option<Inst> {
    var op0 := raw / 0x200_0000 % 16;
    if LdStGroup(raw) then DecodeLdSt(raw, pc)
    else if op0 == 10 || op0 == 11 then DecodeBranch(raw, pc)
    else
      var i := DecodeDp(raw, pc);
      if i.Some? then Some(i.value) else None
  }

  /** The modelled decoders, with any decoder for the words they do not accept. */
  function Decoding(rest: Decoder, raw: nat, pc: nat): Inst {
    if raw < B32 && pc < B64 && Decoded(raw, pc).Some? then Decoded(raw, pc).value else rest(raw, pc)
  }

  // ---- the slots a word names ---------------------------------------------------------------------

  /** Additions, subtractions and logical operations with an immediate whose destination is the stack pointer. */
  predicate ImmToSp(raw: Raw) {
    var g := raw / 0x80_0000 % 8;
    Rt(raw) == 31 && ((g == 2 && !BitAt(raw, 0x2000_0000)) || (g == 4 && Opc(raw) != 3))
  }

  /** Additions and subtractions of an extended register whose destination is the stack pointer. */
  predicate ExtendedToSp(raw: Raw) {
    var op2 := raw / 0x20_0000 % 16;
    Rt(raw) == 31 && !BitAt(raw, 0x2000_0000) && !BitAt(raw, 0x1000_0000) && op2 >= 8 && op2 % 2 == 1
  }

  /** Words that write the stack pointer: as a destination, or as a base they write back. */
  predicate NamesSp(raw: Raw) {
    var op0 := raw / 0x200_0000 % 16;
    if LdStGroup(raw) then Rn(raw) == 31 && WritesBack(raw)
    else if op0 == 8 || op0 == 9 then ImmToSp(raw)
    else (op0 == 5 || op0 == 13) && ExtendedToSp(raw)
  }

  /** The destination is not the zero register's slot, and is the stack pointer's exactly when the word says so. */
  predicate RdOk(i: Dp, sp: bool) {
    i.rd != ZR && (i.rd == SP <==> sp) && (OnlyFlags(i) ==> !sp)
  }

  lemma MaskedSlots(raw: Raw, wmask: Word, tmask: Word)
    ensures RdOk(LogicWith(raw, wmask), Rt(raw) == 31 && Opc(raw) != 3) && RdOk(FieldWith(raw, wmask, tmask), false)
  {
  }

  lemma LogicImmSlots(raw: Raw)
    ensures DecodeLogicImm(raw).Some? ==> RdOk(DecodeLogicImm(raw).value, Rt(raw) == 31 && Opc(raw) != 3)
  {
    if DecodeLogicImm(raw).Some? {
      MaskedSlots(raw, DecodeLogicImm(raw).value.imm, 0);
    }
  }

  lemma MoveWideSlots(raw: Raw)
    ensures DecodeMoveWide(raw).Some? ==> RdOk(DecodeMoveWide(raw).value, false)
  {
  }

  lemma BitfieldSlots(raw: Raw)
    ensures DecodeBitfield(raw).Some? ==> RdOk(DecodeBitfield(raw).value, false)
  {
    if DecodeBitfield(raw).Some? {
      MaskedSlots(raw, DecodeBitfield(raw).value.imm, DecodeBitfield(raw).value.imm2);
    }
  }

  lemma DpImmSlots(raw: Raw, pc: Word)
    ensures DecodeDpImm(raw, pc).Some? ==> RdOk(DecodeDpImm(raw, pc).value, ImmToSp(raw))
  {
    var g := raw / 0x80_0000 % 8;
    if g == 4 {
      LogicImmSlots(raw);
    } else if g == 5 {
      MoveWideSlots(raw);
    } else if g == 6 {
      BitfieldSlots(raw);
    }
  }

  lemma ArithRegSlots(raw: Raw)
    ensures DecodeArithReg(raw).Some? ==> RdOk(DecodeArithReg(raw).value, ExtendedToSp(raw))
  {
  }

  lemma OnRegistersSlots(raw: Raw, how: DataOp, ra: byte, sh: byte, amt: byte, sz: byte)
    ensures RdOk(OnRegisters(raw, how, ra, sh, amt, sz), false)
  {
  }

  lemma DpRegSlots(raw: Raw)
    ensures DecodeDpReg(raw).Some? ==> RdOk(DecodeDpReg(raw).value, ExtendedToSp(raw))
  {
    var op1, op2 := BitAt(raw, 0x1000_0000), raw / 0x20_0000 % 16;
    if (!op1 && op2 < 8) || (op1 && (op2 == 6 || op2 >= 8)) {
      if DecodeDpReg(raw).Some? {
        var i := DecodeDpReg(raw).value;
        OnRegistersSlots(raw, i.fn.how, i.ra, i.sh, i.amt, i.sz);
      }
    } else {
      ArithRegSlots(raw);
    }
  }

  lemma BranchSlots(raw: Raw, pc: Word)
    requires DecodeBranch(raw, pc).Some?
    ensures var i := DecodeBranch(raw, pc).value;
      Modelled(i) && !WritesSlot(i, ZR) && !WritesSlot(i, SP)
  {
  }

  lemma DpSlots(raw: Raw, pc: Word)
    requires DecodeDp(raw, pc).Some?
    ensures var op0 := raw / 0x200_0000 % 16;
      RdOk(DecodeDp(raw, pc).value, if op0 == 8 || op0 == 9 then ImmToSp(raw) else ExtendedToSp(raw))
  {
    DpImmSlots(raw, pc);
    DpRegSlots(raw);
  }

  lemma DpWrites(i: Dp, sp: bool)
    requires RdOk(i, sp)
    ensures Modelled(i) && !WritesSlot(i, ZR) && (WritesSlot(i, SP) <==> sp)
  {
  }

  /** An accepted word never writes the zero register's slot, and writes the stack pointer's exactly when it names
      it. */
  lemma DecodedWrites(raw: Raw, pc: Word)
    requires Decoded(raw, pc).Some?
    ensures var i := Decoded(raw, pc).value;
      Modelled(i) && !WritesSlot(i, ZR) && (WritesSlot(i, SP) <==> NamesSp(raw))
  {
    var op0 := raw / 0x200_0000 % 16;
    if LdStGroup(raw) {
      DecodedSlots(raw, pc);
    } else if op0 == 10 || op0 == 11 {
      BranchSlots(raw, pc);
    } else {
      DpSlots(raw, pc);
      DpWrites(DecodeDp(raw, pc).value, NamesSp(raw));
    }
  }

  /** What the decoder of the other words gives leaves register slot k alone. */
  ghost predicate RestLeaves(rest: Decoder, other: Meaning, k: nat)
    requires k < 256
  {
    forall raw: Raw, pc: Word, s, l :: Decoded(raw, pc).None? ==> Leaves(Handle(rest(raw, pc), s, other), s, l, k)
  }

  lemma ExecutedLeaves(rest: Decoder, other: Meaning, w: Raw, pc: Word, s: Regs, m: Mem, k: nat)
    requires (k == ZR || k == SP) && RestLeaves(rest, other, k)
    requires k == SP && Decoded(w, pc).Some? ==> !NamesSp(w)
    ensures RunScript(Handle(Decoding(rest, w, pc), s, other), s, m).0.r[k] == s.r[k]
  {
    var i := Decoding(rest, w, pc);
    if Decoded(w, pc).Some? {
      DecodedWrites(w, pc);
      HandlerWrites(i, s, other, m, k);
    } else {
      var sc := Handle(i, s, other);
      assert Leaves(sc, s, Perform(m, sc.accs).loaded, k);
      RunIs(sc, s, m);
    }
  }

  // ---- runs ---------------------------------------------------------------------------------------------

  /** The word at pc. */
  function WordAt(s: State): Raw {
    Pow256Words();
    FromLE(Peek(s.mem.flat, s.regs.pc, 4))
  }

  /** One step of the interpreter with these decoders and handlers. */
  function Stepping(rest: Decoder, other: Meaning): Stepper {
    s => Step(Handling(other), (w: nat, pc: nat) => Decoding(rest, w, pc), s)
  }

  /** The word at pc, if accepted, does not name the stack pointer. */
  predicate StepAvoids(s: State) {
    Decoded(WordAt(s), s.regs.pc).Some? ==> !NamesSp(WordAt(s))
  }

  /** A step moves the stack pointer only if the word it executes names it, and never the zero register's slot. */
  lemma StepLeaves(rest: Decoder, other: Meaning, s: State, k: nat)
    requires (k == ZR || k == SP) && RestLeaves(rest, other, k)
    requires k == SP ==> StepAvoids(s)
    ensures Stepping(rest, other)(s).0.regs.r[k] == s.regs.r[k]
  {
    if s.regs.pc % 4 == 0 && PageFault(s.mem.flat, Fetching, s.regs.pc, 4).None? {
      ExecutedLeaves(rest, other, WordAt(s), s.regs.pc, s.regs, s.mem, k);
    }
  }

  predicate SlotIs(s: State, k: nat, v: Word)
    requires k < 256
  {
    s.regs.r[k] == v
  }

  lemma {:induction false} SlotAlong(step: Stepper, s: State, until: Word, n: nat, k: nat, v: Word)
    requires k < 256 && SlotIs(s, k, v) && forall x :: SlotIs(x, k, v) ==> SlotIs(step(x).0, k, v)
    ensures SlotIs(Plain(step, s, until, n).0, k, v)
    decreases n
  {
    if n > 0 && s.regs.pc != until {
      SlotAlong(step, step(s).0, until, n - 1, k, v);
    }
  }

  /** In every state a run reaches the zero register reads zero, whatever loads, stores and arithmetic it executes. */
  lemma RunKeepsZero(rest: Decoder, other: Meaning, s: State, until: Word, n: nat)
    requires RestLeaves(rest, other, ZR) && s.regs.r[ZR] == 0
    ensures Plain(Stepping(rest, other), s, until, n).0.regs.r[ZR] == 0
  {
    forall x | SlotIs(x, ZR, 0) ensures SlotIs(Stepping(rest, other)(x).0, ZR, 0) {
      StepLeaves(rest, other, x, ZR);
    }
    SlotAlong(Stepping(rest, other), s, until, n, ZR, 0);
  }

  /** No instruction of the run names the stack pointer where it could write it. */
  predicate Avoids(step: Stepper, s: State, until: Word, n: nat)
    decreases n
  {
    n == 0 || s.regs.pc == until
    || (StepAvoids(s) && (step(s).1.None? ==> Avoids(step, step(s).0, until, n - 1)))
  }

  /** An accepted word that does not name the stack pointer leaves it alone. */
  ghost predicate KeepsUnnamed(step: Stepper) {
    forall s :: StepAvoids(s) ==> step(s).0.regs.r[SP] == s.regs.r[SP]
  }

  lemma {:induction false} AvoidedAlong(step: Stepper, s: State, until: Word, n: nat)
    requires KeepsUnnamed(step) && Avoids(step, s, until, n)
    ensures Plain(step, s, until, n).0.regs.r[SP] == s.regs.r[SP]
    decreases n
  {
    if n > 0 && s.regs.pc != until && step(s).1.None? {
      AvoidedAlong(step, step(s).0, until, n - 1);
    }
  }

  /** A run in which no accepted word names the stack pointer ends with the stack pointer it began with. */
  lemma RunKeepsSp(rest: Decoder, other: Meaning, s: State, until: Word, n: nat)
    requires RestLeaves(rest, other, SP) && Avoids(Stepping(rest, other), s, until, n)
    ensures Plain(Stepping(rest, other), s, until, n).0.regs.r[SP] == s.regs.r[SP]
  {
    var step := Stepping(rest, other);
    forall x | StepAvoids(x) ensures step(x).0.regs.r[SP] == x.regs.r[SP] {
      StepLeaves(rest, other, x, SP);
    }
    AvoidedAlong(step, s, until, n);
  }
}
