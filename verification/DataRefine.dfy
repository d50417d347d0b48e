/** The rest of data processing against the architecture, and the register rule for every data-processing word. */
module DataRefine {
  import opened Words
  import opened Instructions
  import opened Machine
  import opened WordBits
  import opened DataBits
  import opened DataOps
  import opened DataLaws
  import opened Arithmetic
  import opened Decode
  import opened DataDecode
  import opened DataProc
  import Bitfield
  import Flags

  // ---- the architecture ------------------------------------------------------------------------

  /** The numbers in a word. */
  datatype Fields = Fields(n: nat, immr: nat, imms: nat, sh: nat, hw: nat, wide: nat)

  predicate GoodFields(f: Fields) {
    f.n < 2 && f.immr < 64 && f.imms < 64 && f.sh < 4 && f.hw < 4 && f.wide < 0x1_0000
  }

  function FieldsOf(raw: Raw): (f: Fields)
    ensures GoodFields(f)
  {
    Fields(raw / 0x40_0000 % 2, Immr(raw), Imms(raw), raw / 0x40_0000 % 4, raw / 0x20_0000 % 4, Wide(raw))
  }

  /** The size of the elements of a logical immediate. */
  function ElementSize(f: Fields): (e: nat)
    requires GoodFields(f)
    ensures e > 0
  {
    var l := Bitfield.HighBit(f.n * 64 + (63 - f.imms));
    Pow2(if l < 0 then 0 else l)
  }

  /** A logical immediate: in each element of e bits, the imms % e + 1 low bits rotated right by immr. */
  function MaskBits(f: Fields, size: nat, e: nat): Bitfield.Bits
    requires e > 0
  {
    seq(64, j requires 0 <= j < 64 => InMask(f, size, e, j))
  }

  predicate InMask(f: Fields, size: nat, e: nat, j: nat)
    requires e > 0
  {
    j < size && Bitfield.InElement(e, f.imms, f.immr, j)
  }

  predicate Moves(f: Fields, sf: bool) {
    Bitfield.Move(BitWidth(sf), f.immr, f.imms)
  }

  /** What the architecture computes from the fields and the registers named: Rn, Rm, Ra and the old Rd. */
  function Meaning(how: DataOp, sf: bool, f: Fields, a: Word, b: Word, c: Word, d: Word): nat
    requires GoodFields(f)
  {
    var m, size := Width(sf), BitWidth(sf);
    match how
    case MovReg => LogicOf(LOrr, a % m, ShiftOp(sf, b, f.sh, f.imms))
    case MovKeep => if 16 * f.hw + 16 <= size then Inserted(size, d, 16 * f.hw, 16, f.wide) else 0
    case LogicImm(kind, _) => LogicOf(kind, a % m, WordOf(MaskBits(f, size, ElementSize(f))))
    case LogicReg(kind, inverted, _) => LogicOf(kind, a % m, Complemented(m, inverted, ShiftOp(sf, b, f.sh, f.imms)))
    case FieldU => if Moves(f, sf) then MeantUnsigned(size, a, f.immr, f.imms) else 0
    case FieldS => if Moves(f, sf) then MeantSigned(size, a, f.immr, f.imms) else 0
    case FieldInto => if Moves(f, sf) then MeantInto(size, d, a, f.immr, f.imms) else 0
    case Extract => MeantExtract(m, a, b, f.imms)
    case DivU => DivUnsigned(a % m, b % m)
    case DivS => DivSigned(m, a % m, b % m)
    case ShiftBy => ShiftOp(sf, a, f.imms % 4, b % size)
    case Crc(castagnoli) => CrcBytes(if castagnoli then CRC_CASTAGNOLI else CRC_IEEE, a % B32, b, Pow2(f.imms % 4))
    case FlipBits => WordOf(Flipped(size, BitsOf(a)))
    case FlipBytes(u) => WordOf(BytesFlipped(u, Bitfield.Low(size, BitsOf(a))))
    case LeadZeros => ClearBelow(BitsOf(a), size)
    case LeadSigns => SameBelow(BitsOf(a), size - 1)
    case MulAdd(minus) => Accumulated(m, minus, c % m, (a % m) * (b % m))
    case MulLong(minus, signed) => Accumulated(B64, minus, c, Signed(signed, a) * Signed(signed, b))
    case MulHigh(signed) => MeantHigh(signed, a, b)
  }

  function ArchValue(raw: Raw, how: DataOp, t: Arch): nat {
    Meaning(how, Sf(raw), FieldsOf(raw), X(t, Rn(raw)), X(t, Rm(raw)), X(t, Rt2(raw)), X(t, Rt(raw)))
  }

  /** The meaning of a word: its result in the register it names, where a logical immediate that sets no flags may
      name the stack pointer. */
  function ArchData(raw: Raw, how: DataOp, t: Arch): Arch {
    ArchFinish(raw, how, ArchValue(raw, how, t) % B64, t)
  }

  function ArchFinish(raw: Raw, how: DataOp, v: Word, t: Arch): Arch {
    if Sets(how) then Next4(WriteX(t, Rt(raw), v).(nzcv := LogicFlags(Width(Sf(raw)), v)))
    else if how.LogicImm? then Next4(WriteXSP(t, Rt(raw), v))
    else Next4(WriteX(t, Rt(raw), v))
  }

  /** The architecture's meaning of every data-processing word. */
  function ArchOf(raw: Raw, i: Dp, t: Arch): Arch {
    if i.fn.Data? then ArchData(raw, i.fn.how, t) else ArchExec(raw, i.fn.op, t)
  }

  // ---- refinement -----------------------------------------------------------------------------------

  /** After reading register 31 as zero, an instruction leaves its slot zero and does what the architecture says. */
  predicate RefinesDp(raw: Raw, i: Dp, s: Regs) {
    Exec(i, s).r[ZR] == 0 && View(Exec(i, s)) == ArchOf(raw, i, View(s))
  }

  /** Decoding put the destination where the word says, and the handler computes what the architecture says. */
  predicate Agrees(raw: Raw, i: Dp, s: Regs) {
    i.fn.Data? && i.fn.sf == Sf(raw)
    && i.rd == (if i.fn.how.LogicImm? && !i.fn.how.sets then Xsp(Rt(raw)) else Xw(Rt(raw)))
    && DataValue(i, s) == ArchValue(raw, i.fn.how, View(s))
  }

  lemma AgreesRefines(raw: Raw, i: Dp, s: Regs)
    requires s.r[ZR] == 0 && Agrees(raw, i, s)
    ensures RefinesDp(raw, i, s)
  {
    var v := DataValue(i, s);
    ExecAs(i, s, v);
    ArchAs(raw, i, View(s), v);
    FinishAgrees(raw, i, v, s);
  }

  lemma ExecAs(i: DataInst, s: Regs, v: Word)
    requires v == DataValue(i, s)
    ensures Exec(i, s) == Finish(i, v, s)
  {
  }

  lemma ArchAs(raw: Raw, i: DataInst, t: Arch, v: Word)
    requires v == ArchValue(raw, i.fn.how, t)
    ensures ArchOf(raw, i, t) == ArchFinish(raw, i.fn.how, v, t)
  {
    Reduced64(v);
  }

  lemma Reduced64(v: Word)
    ensures v % B64 == v
  {
  }

  lemma FinishAgrees(raw: Raw, i: DataInst, v: Word, s: Regs)
    requires s.r[ZR] == 0 && i.fn.sf == Sf(raw)
    requires i.rd == (if i.fn.how.LogicImm? && !i.fn.how.sets then Xsp(Rt(raw)) else Xw(Rt(raw)))
    ensures Finish(i, v, s).r[ZR] == 0 && View(Finish(i, v, s)) == ArchFinish(raw, i.fn.how, v, View(s))
  {
    Written(raw, s, v, if Sets(i.fn.how) then LogicFlags(Width(Sf(raw)), v) else s.nzcv,
      i.fn.how.LogicImm? && !i.fn.how.sets);
  }

  lemma Reads(raw: Raw, s: Regs)
    requires s.r[ZR] == 0
    ensures s.r[Xr(Rn(raw))] == X(View(s), Rn(raw)) && s.r[Xr(Rm(raw))] == X(View(s), Rm(raw))
    ensures s.r[Xr(Rt2(raw))] == X(View(s), Rt2(raw)) && s.r[Xr(Rt(raw))] == X(View(s), Rt(raw))
  {
    ReadsAgree(s, Rn(raw));
    ReadsAgree(s, Rm(raw));
    ReadsAgree(s, Rt2(raw));
    ReadsAgree(s, Rt(raw));
  }

  // ---- immediates -------------------------------------------------------------------------------------

  lemma MaskAt(f: Fields, sf: bool, w: Bitfield.Bits, u: Bitfield.Bits, j: nat)
    requires GoodFields(f) && Bitfield.Masks(f.n, f.imms, f.immr, true, BitWidth(sf)) == Some((w, u)) && j < 64
    ensures w[j] == InMask(f, BitWidth(sf), ElementSize(f), j)
  {
    MaskBit(f, BitWidth(sf), Bitfield.HighBit(f.n * 64 + (63 - f.imms)), ElementSize(f), w, u, j);
  }

  lemma MaskBit(f: Fields, size: nat, l: int, e: nat, w: Bitfield.Bits, u: Bitfield.Bits, j: nat)
    requires GoodFields(f) && (size == 32 || size == 64) && j < 64
    requires l == Bitfield.HighBit(f.n * 64 + (63 - f.imms)) && e == Pow2(if l < 0 then 0 else l) > 0
    requires Bitfield.Masks(f.n, f.imms, f.immr, true, size) == Some((w, u))
    ensures w[j] == InMask(f, size, e, j)
  {
    Bitfield.MasksMean(f.n, f.imms, f.immr, true, size, l, e, j);
  }

  lemma MaskIs(f: Fields, sf: bool, w: Bitfield.Bits, u: Bitfield.Bits)
    requires GoodFields(f) && Bitfield.Masks(f.n, f.imms, f.immr, true, BitWidth(sf)) == Some((w, u))
    ensures w == MaskBits(f, BitWidth(sf), ElementSize(f)) && WordOf(w) % Width(sf) == WordOf(w)
  {
    var size, e := BitWidth(sf), ElementSize(f);
    var want := MaskBits(f, size, e);
    forall j | 0 <= j < 64 ensures w[j] == want[j] {
      MaskAt(f, sf, w, u, j);
    }
    assert w == want;
    LowIs(size, w);
    assert Bitfield.Low(size, w) == w;
    Widths(sf);
  }

  lemma LogicImmAgrees(raw: Raw, s: Regs)
    requires s.r[ZR] == 0 && DecodeLogicImm(raw).Some?
    ensures Agrees(raw, DecodeLogicImm(raw).value, s)
  {
    Reads(raw, s);
    var f, sf := FieldsOf(raw), Sf(raw);
    var (w, u) := Bitfield.Masks(f.n, f.imms, f.immr, true, BitWidth(sf)).value;
    MaskIs(f, sf, w, u);
  }

  lemma WideIs(wide: nat, k: nat)
    requires wide < 0x1_0000 && k <= 48
    ensures WordOf(Bitfield.Shl(BitsOf(wide), k)) == Pow2(k) * wide
  {
    ShlIs(BitsOf(wide), k);
    WordBack(wide);
    Pow16();
    Pow2Mono(16, 64 - k);
    DivModUnique(wide, Pow2(64 - k), 0, wide);
  }

  /** The number MOVZ or MOVN moves, as decoded. */
  lemma MovedIs(f: Fields, sf: bool, negated: bool, imm: Word)
    requires GoodFields(f) && (sf || f.hw < 2) && imm == WordOf(Bitfield.Shl(BitsOf(f.wide), 16 * f.hw))
    ensures MovedNumber(sf, negated, f.wide, 16 * f.hw) == DecodedNumber(sf, negated, imm)
  {
    WideIs(f.wide, 16 * f.hw);
    if !sf {
      Below32(f.wide, 16 * f.hw);
    }
    MovedAs(sf, negated, imm);
  }

  function DecodedNumber(sf: bool, negated: bool, imm: Word): Word {
    if !negated then imm else if sf then B64 - 1 - imm else (B64 - 1 - imm) % B32
  }

  lemma MovedAs(sf: bool, negated: bool, imm: Word)
    requires sf || imm < B32
    ensures Moved(sf, negated, imm) == DecodedNumber(sf, negated, imm)
  {
  }

  lemma Below32(f: nat, k: nat)
    requires f < 0x1_0000 && (k == 0 || k == 16)
    ensures Pow2(k) * f < B32
  {
    Pow16();
    assert Pow2(0) == 1;
  }

  lemma MoveWideRefines(raw: Raw, s: Regs)
    requires s.r[ZR] == 0 && DecodeMoveWide(raw).Some? && raw / 0x80_0000 % 8 == 5
    ensures RefinesDp(raw, DecodeMoveWide(raw).value, s)
  {
    var i := DecodeMoveWide(raw).value;
    if Opc(raw) == 3 {
      KeepAgrees(raw, s);
      AgreesRefines(raw, i, s);
    } else {
      MovedIs(FieldsOf(raw), Sf(raw), Opc(raw) == 0, WideImm(raw));
      NumberRefines(raw, i, s);
    }
  }

  lemma NumberRefines(raw: Raw, i: ArithInst, s: Regs)
    requires s.r[ZR] == 0 && raw / 0x80_0000 % 8 == 5 && i.fn.op == MovImm
    requires i.rd == Xw(Rt(raw)) && i.imm == ArchWide(raw)
    ensures RefinesDp(raw, i, s)
  {
    Written(raw, s, i.imm, s.nzcv, false);
  }

  lemma KeepValue(f: Fields, sf: bool, o: Operands, a: Word, b: Word, c: Word, a': Word)
    requires GoodFields(f) && (sf || f.hw < 2)
    requires o.imm == WordOf(Bitfield.Shl(BitsOf(f.wide), 16 * f.hw))
    requires o.imm2 == WordOf(Bitfield.Not(Bitfield.Shl(Bitfield.Ones(16), 16 * f.hw)))
    ensures ValueOf(MovKeep, sf, o, a, b, c) == Meaning(MovKeep, sf, f, a', b, c, a)
  {
    BitsBack(Bitfield.Shl(BitsOf(f.wide), 16 * f.hw));
    BitsBack(Bitfield.Not(Bitfield.Shl(Bitfield.Ones(16), 16 * f.hw)));
    KeepMeans(BitWidth(sf), a, f.wide, 16 * f.hw, o.imm, o.imm2);
    Widths(sf);
  }

  lemma KeepAgrees(raw: Raw, s: Regs)
    requires s.r[ZR] == 0 && DecodeMoveWide(raw).Some? && Opc(raw) == 3
    ensures Agrees(raw, DecodeMoveWide(raw).value, s)
  {
    var i := DecodeMoveWide(raw).value;
    Reads(raw, s);
    KeepValue(FieldsOf(raw), Sf(raw), OperandsOf(i), s.r[i.rn], s.r[i.rm], s.r[i.ra], X(View(s), Rn(raw)));
  }

  /** A bitfield move with the masks of its fields. */
  predicate Masked(f: Fields, sf: bool, o: Operands) {
    Moves(f, sf) && o.amt == f.immr && o.sh == f.imms
    && o.imm == WordOf(Bitfield.WMask(BitWidth(sf), f.immr, f.imms))
    && o.imm2 == WordOf(Bitfield.TMask(BitWidth(sf), f.immr, f.imms))
  }

  lemma UnsignedValue(f: Fields, sf: bool, o: Operands, a: Word, b: Word, c: Word, b': Word, c': Word, d: Word)
    requires GoodFields(f) && Masked(f, sf, o)
    ensures ValueOf(FieldU, sf, o, a, b, c) == Meaning(FieldU, sf, f, a, b', c', d)
  {
    MaskBack(f, sf, o);
    UnsignedMeans(BitWidth(sf), a, f.immr, f.imms);
  }

  lemma SignedValue(f: Fields, sf: bool, o: Operands, a: Word, b: Word, c: Word, b': Word, c': Word, d: Word)
    requires GoodFields(f) && Masked(f, sf, o)
    ensures ValueOf(FieldS, sf, o, a, b, c) == Meaning(FieldS, sf, f, a, b', c', d)
  {
    MaskBack(f, sf, o);
    SmallSize(sf, o.sh);
    SignedMeans(BitWidth(sf), a, f.immr, f.imms);
  }

  lemma IntoValue(f: Fields, sf: bool, o: Operands, a: Word, b: Word, c: Word, b': Word, c': Word)
    requires GoodFields(f) && Masked(f, sf, o)
    ensures ValueOf(FieldInto, sf, o, a, b, c) == Meaning(FieldInto, sf, f, a, b', c', c)
  {
    MaskBack(f, sf, o);
    InsertedMeans(BitWidth(sf), c, a, f.immr, f.imms);
  }

  lemma MaskBack(f: Fields, sf: bool, o: Operands)
    requires Masked(f, sf, o)
    ensures BitsOf(o.imm) == Bitfield.WMask(BitWidth(sf), f.immr, f.imms)
    ensures BitsOf(o.imm2) == Bitfield.TMask(BitWidth(sf), f.immr, f.imms)
  {
    BitsBack(Bitfield.WMask(BitWidth(sf), f.immr, f.imms));
    BitsBack(Bitfield.TMask(BitWidth(sf), f.immr, f.imms));
  }

  lemma SmallSize(sf: bool, k: nat)
    requires k < BitWidth(sf)
    ensures k % BitWidth(sf) == k
  {
  }

  lemma FieldMasksOf(f: Fields, sf: bool)
    requires GoodFields(f) && f.n == (if sf then 1 else 0) && Moves(f, sf)
    ensures Bitfield.Masks(f.n, f.imms, f.immr, false, BitWidth(sf))
      == Some((Bitfield.WMask(BitWidth(sf), f.immr, f.imms), Bitfield.TMask(BitWidth(sf), f.immr, f.imms)))
  {
    Bitfield.MoveMasks(BitWidth(sf), f.immr, f.imms);
  }

  lemma FieldMasks(raw: Raw)
    requires DecodeBitfield(raw).Some?
    ensures Masked(FieldsOf(raw), Sf(raw), OperandsOf(DecodeBitfield(raw).value))
  {
    FieldMasksOf(FieldsOf(raw), Sf(raw));
  }

  lemma BitfieldAgrees(raw: Raw, s: Regs)
    requires s.r[ZR] == 0 && DecodeBitfield(raw).Some?
    ensures Agrees(raw, DecodeBitfield(raw).value, s)
  {
    var i, t, f := DecodeBitfield(raw).value, View(s), FieldsOf(raw);
    var a, b, c, d := s.r[i.rn], s.r[i.rm], s.r[i.ra], X(t, Rt(raw));
    Reads(raw, s);
    FieldMasks(raw);
    if i.fn.how == FieldS {
      SignedValue(f, Sf(raw), OperandsOf(i), a, b, c, X(t, Rm(raw)), X(t, Rt2(raw)), d);
    } else if i.fn.how == FieldInto {
      IntoValue(f, Sf(raw), OperandsOf(i), a, b, c, X(t, Rm(raw)), X(t, Rt2(raw)));
    } else {
      UnsignedValue(f, Sf(raw), OperandsOf(i), a, b, c, X(t, Rm(raw)), X(t, Rt2(raw)), d);
    }
  }

  lemma ExtractValue(f: Fields, sf: bool, o: Operands, a: Word, b: Word, c: Word, c': Word, d: Word)
    requires GoodFields(f) && f.imms < BitWidth(sf) && o.amt == f.imms
    ensures ValueOf(Extract, sf, o, a, b, c) == Meaning(Extract, sf, f, a, b, c', d)
  {
    SmallSize(sf, o.amt);
    ExtractMeans(sf, a, b, f.imms);
  }

  lemma ExtractAgrees(raw: Raw, s: Regs)
    requires s.r[ZR] == 0 && DecodeExtract(raw).Some?
    ensures Agrees(raw, DecodeExtract(raw).value, s)
  {
    var i, t := DecodeExtract(raw).value, View(s);
    Reads(raw, s);
    ExtractValue(FieldsOf(raw), Sf(raw), OperandsOf(i), s.r[i.rn], s.r[i.rm], s.r[i.ra], X(t, Rt2(raw)),
      X(t, Rt(raw)));
  }

  // ---- registers -------------------------------------------------------------------------------------

  /** MOV is ORR with the zero register. */
  lemma MovIsOrr(sf: bool, b: Word, sh: nat)
    requires sh < 4
    ensures LogicOf(LOrr, 0, ShiftOp(sf, b, sh, 0)) == b % Width(sf)
  {
    ShiftNothing(sf, b, sh);
    var v: Word := b % Width(sf);
    ZeroBits();
    assert Bitfield.Or(BitsOf(0), BitsOf(v)) == BitsOf(v);
    WordBack(v);
  }

  lemma ZeroBits()
    ensures forall j :: 0 <= j < 64 ==> !BitsOf(0)[j]
  {
    forall j | 0 <= j < 64 ensures !BitsOf(0)[j] {
      LowBitAt(0, 64, j);
    }
  }

  lemma ShiftNothing(sf: bool, b: Word, sh: nat)
    requires sh < 4
    ensures ShiftOp(sf, b, sh, 0) == b % Width(sf)
  {
    assert Pow2(0) == 1;
    if sh == 3 {
      var size := BitWidth(sf);
      assert Bitfield.Rotate(size, BitsOf(b), 0) == Bitfield.Low(size, BitsOf(b));
      LowIs(size, BitsOf(b));
      Widths(sf);
      WordBack(b);
    }
  }

  lemma MovValue(f: Fields, sf: bool, o: Operands, a: Word, b: Word, c: Word, c': Word, d: Word)
    requires GoodFields(f) && a == 0 && f.imms == 0
    ensures ValueOf(MovReg, sf, o, a, b, c) == Meaning(MovReg, sf, f, a, b, c', d)
  {
    MovIsOrr(sf, b, f.sh);
  }

  lemma LogicValue(how: DataOp, f: Fields, sf: bool, o: Operands, a: Word, b: Word, c: Word, c': Word, d: Word)
    requires GoodFields(f) && how.LogicReg? && o.sh == f.sh && o.amt == f.imms
    ensures ValueOf(how, sf, o, a, b, c) == Meaning(how, sf, f, a, b, c', d)
  {
  }

  lemma LogicRegAgrees(raw: Raw, s: Regs)
    requires s.r[ZR] == 0 && DecodeLogicReg(raw).Some?
    ensures Agrees(raw, DecodeLogicReg(raw).value, s)
  {
    var i, t := DecodeLogicReg(raw).value, View(s);
    Reads(raw, s);
    var a, b, c, c', d := s.r[i.rn], s.r[i.rm], s.r[i.ra], X(t, Rt2(raw)), X(t, Rt(raw));
    if i.fn.how == MovReg {
      MovValue(FieldsOf(raw), Sf(raw), OperandsOf(i), a, b, c, c', d);
    } else {
      LogicValue(i.fn.how, FieldsOf(raw), Sf(raw), OperandsOf(i), a, b, c, c', d);
    }
  }

  /** The operands of an operation on registers, read off the fields. */
  predicate Plain(how: DataOp, f: Fields, o: Operands) {
    match how
    case ShiftBy => o.sh == f.imms % 4
    case Crc(_) => o.sz == Pow2(f.imms % 4)
    case DivU | DivS | FlipBits | FlipBytes(_) | LeadZeros | LeadSigns => true
    case MulAdd(_) | MulLong(_, _) | MulHigh(_) => true
    case _ => false
  }

  lemma PlainValue(how: DataOp, f: Fields, sf: bool, o: Operands, a: Word, b: Word, c: Word, c': Word, d: Word)
    requires GoodFields(f) && Plain(how, f, o) && (how.MulAdd? || how.MulLong? ==> c == c')
    ensures ValueOf(how, sf, o, a, b, c) == Meaning(how, sf, f, a, b, c', d)
  {
    match how
    case FlipBytes(u) => BytesMean(sf, u, BitsOf(a));
    case LeadZeros => ZerosMean(sf, a);
    case LeadSigns => SignsMean(sf, BitsOf(a));
    case MulHigh(signed) => HighMeans(signed, a, b);
    case _ =>
  }

  lemma PlainAgrees(raw: Raw, i: Dp, s: Regs)
    requires s.r[ZR] == 0 && i.fn.Data? && i.fn.sf == Sf(raw) && Plain(i.fn.how, FieldsOf(raw), OperandsOf(i))
    requires i.rd == Xw(Rt(raw)) && i.rn == Xr(Rn(raw)) && i.rm == Xr(Rm(raw))
    requires i.fn.how.MulAdd? || i.fn.how.MulLong? ==> i.ra == Xr(Rt2(raw))
    ensures Agrees(raw, i, s)
  {
    var t := View(s);
    Reads(raw, s);
    PlainValue(i.fn.how, FieldsOf(raw), Sf(raw), OperandsOf(i), s.r[i.rn], s.r[i.rm], s.r[i.ra], X(t, Rt2(raw)),
      X(t, Rt(raw)));
  }

  lemma Dp2Plain(raw: Raw)
    requires DecodeDp2(raw).Some?
    ensures var i := DecodeDp2(raw).value; Plain(i.fn.how, FieldsOf(raw), OperandsOf(i))
  {
  }

  // ---- every word ------------------------------------------------------------------------------------

  lemma ArithRefines(raw: Raw, s: Regs, i: ArithInst)
    requires s.r[ZR] == 0 && DecodeArithReg(raw) == Some(i)
    ensures RefinesDp(raw, i, s)
  {
    match i.fn.op
    case Shifted => ShiftedRefines(raw, s, i);
    case Extended => ExtendedRefines(raw, s, i);
    case WithCarry => WithCarryRefines(raw, s, i);
    case CompareReg | CompareImm => CompareRefines(raw, s, i);
    case Choose(_) => ChooseRefines(raw, s, i);
    case MovImm | Immediate => assert false;
  }

  lemma DpRegRefines(raw: Raw, s: Regs)
    requires s.r[ZR] == 0 && DecodeDpReg(raw).Some?
    ensures RefinesDp(raw, DecodeDpReg(raw).value, s)
  {
    var i, op1, op2 := DecodeDpReg(raw).value, BitAt(raw, 0x1000_0000), raw / 0x20_0000 % 16;
    if !op1 && op2 < 8 {
      LogicRegAgrees(raw, s);
      AgreesRefines(raw, i, s);
    } else if op1 && op2 == 6 {
      if !BitAt(raw, 0x4000_0000) { Dp2Plain(raw); }
      PlainAgrees(raw, i, s);
      AgreesRefines(raw, i, s);
    } else if op1 && op2 >= 8 {
      PlainAgrees(raw, i, s);
      AgreesRefines(raw, i, s);
    } else {
      ArithRefines(raw, s, DecodeArithReg(raw).value);
    }
  }

  lemma DpImmRefines(raw: Raw, s: Regs)
    requires s.r[ZR] == 0 && DecodeDpImm(raw, s.pc).Some?
    ensures RefinesDp(raw, DecodeDpImm(raw, s.pc).value, s)
  {
    var i, g := DecodeDpImm(raw, s.pc).value, raw / 0x80_0000 % 8;
    if g <= 1 {
      AdrRefines(raw, s);
    } else if g == 2 {
      ImmediateRefines(raw, s);
    } else if g == 5 {
      MoveWideRefines(raw, s);
    } else {
      if g == 4 { LogicImmAgrees(raw, s); } else if g == 6 { BitfieldAgrees(raw, s); } else { ExtractAgrees(raw, s); }
      AgreesRefines(raw, i, s);
    }
  }

  /** Resolving register 31 when decoding refines the architecture's rule: for every accepted word, in every state
      whose zero register is zero, the handler's effect on the visible registers, flags and pc is the one read off
      the word. */
  lemma DecodedDpRefines(raw: Raw, s: Regs)
    requires s.r[ZR] == 0 && DecodeDp(raw, s.pc).Some?
    ensures RefinesDp(raw, DecodeDp(raw, s.pc).value, s)
  {
    var op0 := raw / 0x200_0000 % 16;
    if op0 == 8 || op0 == 9 {
      DpImmRefines(raw, s);
    } else {
      DpRegRefines(raw, s);
    }
  }
}
