/** The encoding tables of data processing (DDI 0487, section C4.1), and every word against them. */
module DataTable {
  import opened Words
  import opened Instructions
  import opened Machine
  import opened LoadStore
  import opened DataBits
  import opened Arithmetic
  import opened Decode
  import opened DataDecode
  import opened DataProc
  import opened DataRefine
  import Bitfield

  /** The operations of a table. */
  datatype Listing = OfArith(op: Op) | OfData(how: DataOp) | Unallocated

  function When(c: bool, l: Listing): Listing { if c then l else Unallocated }

  // ---- the tables ------------------------------------------------------------------------------

  /** Bits 28:21 of a word: the class, and what selects within it. */
  function ClassOf(raw: Raw): nat { raw / 0x20_0000 % 256 }

  /** Bit 22, N of the immediate forms and the low bit of a shift. */
  predicate N(raw: Raw) { BitAt(raw, 0x40_0000) }

  /** The three fields of a logical immediate give a mask of m bits: an element of 2, 4, ..., m bits, not all ones. */
  predicate MaskAllocated(n: nat, imms: nat, m: nat)
    requires n < 2 && imms < 64
  {
    var l := Bitfield.HighBit(n * 64 + (63 - imms));
    l >= 1 && Pow2(l) <= m && imms % Pow2(l) != Pow2(l) - 1
  }

  function TableLogicImm(raw: Raw): Listing {
    var legal := (N(raw) ==> Sf(raw)) && MaskAllocated(if N(raw) then 1 else 0, Imms(raw), if Sf(raw) then 64 else 32);
    When(legal, match Opc(raw)
      case 0 => OfData(LogicImm(LAnd, false))
      case 1 => OfData(LogicImm(LOrr, false))
      case 2 => OfData(LogicImm(LEor, false))
      case _ => OfData(LogicImm(LAnd, true)))
  }

  function TableMoveWide(raw: Raw): Listing {
    When(Sf(raw) || !N(raw), match Opc(raw)
      case 0 => OfArith(MovImm)
      case 1 => Unallocated
      case 2 => OfArith(MovImm)
      case _ => OfData(MovKeep))
  }

  function TableBitfield(raw: Raw): Listing {
    When(Sf(raw) == N(raw) && (Sf(raw) || (Immr(raw) < 32 && Imms(raw) < 32)), match Opc(raw)
      case 0 => OfData(FieldS)
      case 1 => OfData(FieldInto)
      case 2 => OfData(FieldU)
      case _ => Unallocated)
  }

  function TableExtract(raw: Raw): Listing {
    When(Opc(raw) == 0 && Sf(raw) == N(raw) && !BitAt(raw, 0x20_0000) && (Sf(raw) || Imms(raw) < 32), OfData(Extract))
  }

  /** Opc and bit 21 together: AND, BIC, ORR, ORN, EOR, EON, ANDS, BICS. */
  function TableLogicReg(raw: Raw): Listing {
    When(Sf(raw) || Imms(raw) < 32, match 2 * Opc(raw) + raw / 0x20_0000 % 2
      case 0 => OfData(LogicReg(LAnd, false, false))
      case 1 => OfData(LogicReg(LAnd, true, false))
      case 2 => OfData(LogicReg(LOrr, false, false))
      case 3 => OfData(LogicReg(LOrr, true, false))
      case 4 => OfData(LogicReg(LEor, false, false))
      case 5 => OfData(LogicReg(LEor, true, false))
      case 6 => OfData(LogicReg(LAnd, false, true))
      case _ => OfData(LogicReg(LAnd, true, true)))
  }

  function TableAddSubReg(raw: Raw): Listing {
    if BitAt(raw, 0x20_0000) then When(raw / 0x40_0000 % 4 == 0 && raw / 0x400 % 8 <= 4, OfArith(Extended))
    else When(raw / 0x40_0000 % 4 != 3 && (Sf(raw) || Imms(raw) < 32), OfArith(Shifted))
  }

  /** Opc is op and S, bits 30 and 29. */
  function TableCompare(raw: Raw): Listing {
    When(Opc(raw) % 2 == 1 && !BitAt(raw, 0x400) && !BitAt(raw, 0x10),
      OfArith(if BitAt(raw, 0x800) then CompareImm else CompareReg))
  }

  function TableChoose(raw: Raw): Listing {
    match 4 * Opc(raw) + raw / 0x400 % 4
    case 0 => OfArith(Choose(Sel))
    case 1 => OfArith(Choose(Inc))
    case 8 => OfArith(Choose(Inv))
    case 9 => OfArith(Choose(Neg))
    case _ => Unallocated
  }

  function TableTwoSources(raw: Raw): Listing {
    match Imms(raw)
    case 2 => OfData(DivU)
    case 3 => OfData(DivS)
    case 8 | 9 | 10 | 11 => OfData(ShiftBy)
    case 16 | 17 | 18 => When(!Sf(raw), OfData(Crc(false)))
    case 19 => When(Sf(raw), OfData(Crc(false)))
    case 20 | 21 | 22 => When(!Sf(raw), OfData(Crc(true)))
    case 23 => When(Sf(raw), OfData(Crc(true)))
    case _ => Unallocated
  }

  function TableOneSource(raw: Raw): Listing {
    When(Rm(raw) == 0, match Imms(raw)
      case 0 => OfData(FlipBits)
      case 1 => OfData(FlipBytes(2))
      case 2 => OfData(FlipBytes(4))
      case 3 => When(Sf(raw), OfData(FlipBytes(8)))
      case 4 => OfData(LeadZeros)
      case 5 => OfData(LeadSigns)
      case _ => Unallocated)
  }

  /** Bits 23:21 and bit 15. */
  function TableThreeSources(raw: Raw): Listing {
    When(Opc(raw) == 0, match (raw / 0x20_0000 % 8, BitAt(raw, 0x8000))
      case (0, minus) => OfData(MulAdd(minus))
      case (1, minus) => When(Sf(raw), OfData(MulLong(minus, true)))
      case (2, false) => When(Sf(raw), OfData(MulHigh(true)))
      case (5, minus) => When(Sf(raw), OfData(MulLong(minus, false)))
      case (6, false) => When(Sf(raw), OfData(MulHigh(false)))
      case _ => Unallocated)
  }

  /** By bits 25:23. */
  function TableImm(raw: Raw, g: nat): Listing {
    match g
    case 0 | 1 => OfArith(MovImm)
    case 2 => OfArith(Immediate)
    case 4 => TableLogicImm(raw)
    case 5 => TableMoveWide(raw)
    case 6 => TableBitfield(raw)
    case 7 => TableExtract(raw)
    case _ => Unallocated
  }

  function Table(raw: Raw): Listing {
    var c := ClassOf(raw);
    if c / 32 == 4 then TableImm(raw, c / 4 % 8)
    else if c / 8 == 0x0a then TableLogicReg(raw)
    else if c / 8 == 0x0b then TableAddSubReg(raw)
    else if c == 0xd0 then When(Imms(raw) == 0, OfArith(WithCarry))
    else if c == 0xd2 then TableCompare(raw)
    else if c == 0xd4 then TableChoose(raw)
    else if c == 0xd6 && Opc(raw) == 0 then TableTwoSources(raw)
    else if c == 0xd6 && Opc(raw) == 2 then TableOneSource(raw)
    else if c / 8 == 0x1b then TableThreeSources(raw)
    else Unallocated
  }

  // ---- the decoder against the tables -------------------------------------------------------------

  /** The operation of a decoded instruction; moving a register is ORR with the zero register. */
  function ListingOf(i: Option<Dp>): Listing {
    if i.None? then Unallocated
    else match i.value.fn
      case Arith(op, _, _, _) => OfArith(op)
      case Data(how, _) => OfData(if how == MovReg then LogicReg(LOrr, false, false) else how)
  }

  lemma MaskIsAllocated(n: nat, imms: nat, immr: nat, m: nat)
    requires n < 2 && imms < 64 && immr < 64 && (m == 32 || m == 64)
    ensures Bitfield.Masks(n, imms, immr, true, m).Some? <==> MaskAllocated(n, imms, m)
  {
    var l := Bitfield.HighBit(n * 64 + (63 - imms));
    Bitfield.MasksMean(n, imms, immr, true, m, l, Pow2(if l < 0 then 0 else l), 0);
  }

  lemma LogicImmListed(raw: Raw)
    ensures ListingOf(DecodeLogicImm(raw)) == TableLogicImm(raw)
  {
    MaskIsAllocated(raw / 0x40_0000 % 2, Imms(raw), Immr(raw), Bits(Sf(raw)));
  }

  lemma MoveWideListed(raw: Raw)
    ensures ListingOf(DecodeMoveWide(raw)) == TableMoveWide(raw)
  {
    HighHalf(raw);
    MoveWideKind(raw, Sf(raw), Opc(raw));
  }

  lemma MoveWideKind(raw: Raw, sf: bool, opc: nat)
    requires sf == Sf(raw) && opc == Opc(raw)
    ensures ListingOf(DecodeMoveWide(raw)) ==
      if opc == 1 || (!sf && raw / 0x20_0000 % 4 >= 2) then Unallocated
      else if opc == 3 then OfData(MovKeep) else OfArith(MovImm)
  {
  }

  lemma HighHalf(raw: Raw)
    ensures raw / 0x20_0000 % 4 >= 2 <==> N(raw)
  {
    DivDiv(raw, 0x20_0000, 2);
  }

  lemma BitfieldListed(raw: Raw)
    ensures ListingOf(DecodeBitfield(raw)) == TableBitfield(raw)
  {
    if Sf(raw) == N(raw) && (Sf(raw) || (Immr(raw) < 32 && Imms(raw) < 32)) {
      Bitfield.MoveMasks(Bits(Sf(raw)), Immr(raw), Imms(raw));
    }
  }

  lemma ExtractListed(raw: Raw)
    ensures ListingOf(DecodeExtract(raw)) == TableExtract(raw)
  {
  }

  lemma LogicRegListed(raw: Raw)
    ensures ListingOf(DecodeLogicReg(raw)) == TableLogicReg(raw)
  {
  }

  lemma TwoSourcesListed(raw: Raw)
    ensures ListingOf(DecodeDp2(raw)) == TableTwoSources(raw)
  {
  }

  lemma OneSourceListed(raw: Raw)
    ensures ListingOf(DecodeDp1(raw)) == TableOneSource(raw)
  {
  }

  lemma ThreeSourcesListed(raw: Raw)
    ensures ListingOf(DecodeDp3(raw)) == TableThreeSources(raw)
  {
  }

  // ---- additions, compares and selections ----------------------------------------------------------

  function Arith(i: Option<ArithInst>): Option<Dp> {
    if i.None? then None else Some(i.value)
  }

  /** Two neighbouring bits. */
  lemma TwoBits(raw: Raw, p: nat)
    requires p > 0
    ensures raw / p % 4 == (if BitAt(raw, 2 * p) then 2 else 0) + if BitAt(raw, p) then 1 else 0
  {
    DivDiv(raw, p, 2);
    assert p * 2 == 2 * p;
    HalfBits(raw / p);
  }

  lemma HalfBits(q: nat)
    ensures q % 4 == 2 * (q / 2 % 2) + q % 2
  {
  }

  lemma AddSubRegListed(raw: Raw)
    requires ClassOf(raw) / 8 == 0x0b
    ensures ListingOf(Arith(DecodeArithReg(raw))) == TableAddSubReg(raw)
  {
    Classes(raw);
    AddSubGroup(raw, ClassOf(raw) % 16);
  }

  lemma AddSubGroup(raw: Raw, op2: nat)
    requires !BitAt(raw, 0x1000_0000) && op2 == raw / 0x20_0000 % 16 >= 8 && (BitAt(raw, 0x20_0000) <==> op2 % 2 == 1)
    ensures ListingOf(Arith(DecodeArithReg(raw))) == TableAddSubReg(raw)
  {
  }

  lemma CompareListed(raw: Raw)
    requires ClassOf(raw) == 0xd2
    ensures ListingOf(Arith(DecodeArithReg(raw))) == TableCompare(raw)
  {
    Classes(raw);
    TwoBits(raw, 0x2000_0000);
  }

  lemma ChooseListed(raw: Raw)
    requires ClassOf(raw) == 0xd4
    ensures ListingOf(Arith(DecodeArithReg(raw))) == TableChoose(raw)
  {
    Classes(raw);
    TwoBits(raw, 0x2000_0000);
    TwoBits(raw, 0x400);
  }

  lemma ArithRegListed(raw: Raw)
    requires ClassOf(raw) / 16 == 0xd && ClassOf(raw) % 16 < 8 && ClassOf(raw) != 0xd6
    ensures ListingOf(Arith(DecodeArithReg(raw))) == Table(raw)
  {
    var c := ClassOf(raw);
    Classes(raw);
    if c == 0xd2 {
      CompareListed(raw);
    } else if c == 0xd4 {
      ChooseListed(raw);
    }
  }

  // ---- every word ---------------------------------------------------------------------------------

  lemma Classes(raw: Raw)
    ensures var c := ClassOf(raw);
      raw / 0x200_0000 % 16 == c / 16 && raw / 0x80_0000 % 8 == c / 4 % 8 && raw / 0x20_0000 % 16 == c % 16
      && (BitAt(raw, 0x1000_0000) <==> c >= 128) && (BitAt(raw, 0x20_0000) <==> c % 2 == 1)
  {
    DivDiv(raw, 0x20_0000, 16);
    DivDiv(raw, 0x20_0000, 4);
    DivDiv(raw, 0x20_0000, 128);
    ClassBits(raw / 0x20_0000);
  }

  lemma ClassBits(q: nat)
    ensures var c := q % 256;
      q / 16 % 16 == c / 16 && q / 4 % 8 == c / 4 % 8 && q % 16 == c % 16 && (q / 128 % 2 == 1 <==> c >= 128)
      && q % 2 == c % 2
  {
    var h, c := q / 256, q % 256;
    assert q == 256 * h + c;
    DivModUnique(q, 16, 16 * h + c / 16, c % 16);
    DivModUnique(16 * h + c / 16, 16, h, c / 16);
    DivModUnique(q, 4, 64 * h + c / 4, c % 4);
    DivModUnique(64 * h + c / 4, 8, 8 * h + c / 4 / 8, c / 4 % 8);
    DivModUnique(q, 128, 2 * h + c / 128, c % 128);
    DivModUnique(2 * h + c / 128, 2, h, c / 128);
    DivModUnique(q, 2, 128 * h + c / 2, c % 2);
  }

  lemma ImmListed(raw: Raw, pc: Word)
    ensures ListingOf(DecodeDpImm(raw, pc)) == TableImm(raw, raw / 0x80_0000 % 8)
  {
    match raw / 0x80_0000 % 8
    case 4 => LogicImmListed(raw);
    case 5 => MoveWideListed(raw);
    case 6 => BitfieldListed(raw);
    case 7 => ExtractListed(raw);
    case _ =>
  }

  lemma RegListed(raw: Raw)
    requires ClassOf(raw) / 16 == 5 || ClassOf(raw) / 16 == 0xd
    ensures ListingOf(DecodeDpReg(raw)) == Table(raw)
  {
    Classes(raw);
    TwoBits(raw, 0x2000_0000);
    var c := ClassOf(raw);
    if c / 8 == 0x0a {
      LogicRegListed(raw);
    } else if c / 8 == 0x0b {
      AddSubRegListed(raw);
    } else if c == 0xd6 {
      TwoSourcesListed(raw);
      OneSourceListed(raw);
    } else if c / 8 == 0x1b {
      ThreeSourcesListed(raw);
    } else {
      ArithRegListed(raw);
    }
  }

  /** The decoder accepts exactly the words the tables allocate, and gives each the operation they list. */
  lemma DecodedListed(raw: Raw, pc: Word)
    ensures ListingOf(DecodeDp(raw, pc)) == Table(raw)
  {
    Classes(raw);
    var g := ClassOf(raw) / 16;
    if g == 8 || g == 9 {
      ImmListed(raw, pc);
    } else if g == 5 || g == 0xd {
      RegListed(raw);
    }
  }

  /** What the architecture does with a word, by the tables alone. */
  function ArchWord(raw: Raw, t: Arch): Arch {
    match Table(raw)
    case OfArith(op) => ArchExec(raw, op, t)
    case OfData(how) => ArchData(raw, how, t)
    case Unallocated => t
  }

  lemma MoveMeans(raw: Raw, t: Arch)
    ensures ArchData(raw, MovReg, t) == ArchData(raw, LogicReg(LOrr, false, false), t)
  {
  }

  /** For every word the tables allocate, in every state whose zero register is zero, decoding and executing it has the
      effect on the visible registers, flags and pc that the architecture reads off the word. */
  lemma DecodedMeans(raw: Raw, s: Regs)
    requires s.r[ZR] == 0 && Table(raw) != Unallocated
    ensures DecodeDp(raw, s.pc).Some?
    ensures var s' := Exec(DecodeDp(raw, s.pc).value, s); s'.r[ZR] == 0 && View(s') == ArchWord(raw, View(s))
  {
    DecodedListed(raw, s.pc);
    DecodedDpRefines(raw, s);
    MoveMeans(raw, View(s));
  }
}
