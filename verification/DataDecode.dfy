/** Decoding of data processing, with an immediate and with registers. */
module DataDecode {
  import opened Words
  import opened Instructions
  import opened LoadStore
  import opened Arithmetic
  import opened Decode
  import opened WordBits
  import Bitfield

  // ---- additions, subtractions, compares and selections --------------------------------------

  /** An instruction with its handler and operands. */
  function Operation(op: Op, sf: bool, sub: bool, flags: bool, rd: byte, rn: byte, rm: byte, sh: byte, amt: byte,
      cond: byte, imm: Word): ArithInst
  {
    Inst(Arith(op, sf, sub, flags), imm, 0, rd, rn, rm, 0, cond, sh, amt, 0)
  }

  function DecodeAdr(raw: Raw, pc: Word): ArithInst {
    var imm := Sx(raw / 32 % 0x8_0000 * 4 + raw / 0x2000_0000 % 4, 0x10_0000);
    var v := if !BitAt(raw, 0x8000_0000) then Add(pc, imm) else Add(pc - pc % 0x1000, imm * 0x1000 % B64);
    Operation(MovImm, true, false, false, Xw(Rt(raw)), 0, 0, 0, 0, 0, v)
  }

  function DecodeAddSubImm(raw: Raw): ArithInst {
    var imm := raw / 0x400 % 0x1000 * if BitAt(raw, 0x40_0000) then 0x1000 else 1;
    var s := BitAt(raw, 0x2000_0000);
    Operation(Immediate, BitAt(raw, 0x8000_0000), BitAt(raw, 0x4000_0000), s,
      if s then Xw(Rt(raw)) else Xsp(Rt(raw)), Xsp(Rn(raw)), 0, 0, 0, 0, imm)
  }

  function DecodeArithReg(raw: Raw): Option<ArithInst> {
    var sf, sub, s := BitAt(raw, 0x8000_0000), BitAt(raw, 0x4000_0000), BitAt(raw, 0x2000_0000);
    var op2, imm6 := raw / 0x20_0000 % 16, raw / 0x400 % 64;
    var rd, rn, rm := Rt(raw), Rn(raw), Rm(raw);
    if !BitAt(raw, 0x1000_0000) then
      if op2 < 8 then None
      else if op2 % 2 == 0 then
        var sh := raw / 0x40_0000 % 4;
        if sh == 3 || (!sf && imm6 >= 32) then None
        else Some(Operation(Shifted, sf, sub, s, Xw(rd), Xr(rn), Xr(rm), sh, imm6, 0, 0))
      else
        var imm3 := raw / 0x400 % 8;
        if raw / 0x40_0000 % 4 != 0 || imm3 > 4 then None
        else Some(Operation(Extended, sf, sub, s, if s then Xw(rd) else Xsp(rd), Xsp(rn), Xr(rm), raw / 0x2000 % 8,
          imm3, 0, 0))
    else if op2 == 0 then
      if imm6 != 0 then None else Some(Operation(WithCarry, sf, sub, s, Xw(rd), Xr(rn), Xr(rm), 0, 0, 0, 0))
    else if op2 == 2 then
      if !s || BitAt(raw, 0x400) || BitAt(raw, 0x10) then None
      else Some(Operation(if BitAt(raw, 0x800) then CompareImm else CompareReg, sf, sub, true, 0, Xr(rn), Xr(rm), 0,
        raw % 16, raw / 0x1000 % 16, rm))
    else if op2 == 4 then
      if s || BitAt(raw, 0x800) then None
      else
        var how := if sub then (if BitAt(raw, 0x400) then Neg else Inv) else if BitAt(raw, 0x400) then Inc else Sel;
        Some(Operation(Choose(how), sf, sub, false, Xw(rd), Xr(rn), Xr(rm), 0, 0, raw / 0x1000 % 16, 0))
    else None
  }

  // ---- moves, logical operations and bitfields ------------------------------------------------

  function Imms(raw: Raw): nat { raw / 0x400 % 64 }
  function Immr(raw: Raw): nat { raw / 0x1_0000 % 64 }
  function Opc(raw: Raw): nat { raw / 0x2000_0000 % 4 }
  predicate Sf(raw: Raw) { BitAt(raw, 0x8000_0000) }
  function Bits(sf: bool): nat { if sf then 64 else 32 }

  function LogicKind(opc: nat): Logic {
    if opc == 1 then LOrr else if opc == 2 then LEor else LAnd
  }

  function DecodeLogicImm(raw: Raw): Option<Dp> {
    var sf, n := Sf(raw), raw / 0x40_0000 % 2;
    if !sf && n == 1 then None
    else
      match Bitfield.Masks(n, Imms(raw), Immr(raw), true, Bits(sf))
      case None => None
      case Some((wmask, _)) => Some(LogicWith(raw, WordOf(wmask)))
  }

  function LogicWith(raw: Raw, mask: Word): Dp {
    var opc := Opc(raw);
    Inst(Data(LogicImm(LogicKind(opc), opc == 3), Sf(raw)), mask, 0, if opc == 3 then Xw(Rt(raw)) else Xsp(Rt(raw)),
      Xr(Rn(raw)), 0, 0, 0, 0, 0, 0)
  }

  function Wide(raw: Raw): nat { raw / 32 % 0x1_0000 }
  function WideShift(raw: Raw): nat { 16 * (raw / 0x20_0000 % 4) }

  /** A 16-bit immediate shifted into place. */
  function WideImm(raw: Raw): Word {
    WordOf(Bitfield.Shl(BitsOf(Wide(raw)), WideShift(raw)))
  }

  function DecodeMoveWide(raw: Raw): Option<Dp> {
    var sf, opc, hw := Sf(raw), Opc(raw), raw / 0x20_0000 % 4;
    if opc == 1 || (!sf && hw >= 2) then None
    else if opc == 0 then
      var imm := B64 - 1 - WideImm(raw);
      Some(Operation(MovImm, true, false, false, Xw(Rt(raw)), 0, 0, 0, 0, 0, if sf then imm else imm % B32))
    else if opc == 2 then
      Some(Operation(MovImm, true, false, false, Xw(Rt(raw)), 0, 0, 0, 0, 0, WideImm(raw)))
    else
      var mask := WordOf(Bitfield.Not(Bitfield.Shl(Bitfield.Ones(16), WideShift(raw))));
      Some(Inst(Data(MovKeep, sf), WideImm(raw), mask, Xw(Rt(raw)), Xr(Rt(raw)), 0, 0, 0, 0, 0, 0))
  }

  function DecodeBitfield(raw: Raw): Option<Dp> {
    var sf, opc, n := Sf(raw), Opc(raw), raw / 0x40_0000 % 2;
    if !sf && (Immr(raw) >= 32 || Imms(raw) >= 32) then None
    else if opc == 3 || (sf && n == 0) || (!sf && n == 1) then None
    else
      match Bitfield.Masks(n, Imms(raw), Immr(raw), false, Bits(sf))
      case None => None
      case Some((wmask, tmask)) => Some(FieldWith(raw, WordOf(wmask), WordOf(tmask)))
  }

  function FieldWith(raw: Raw, wmask: Word, tmask: Word): Dp {
    var opc := Opc(raw);
    var how := if opc == 0 then FieldS else if opc == 1 then FieldInto else FieldU;
    Inst(Data(how, Sf(raw)), wmask, tmask, Xw(Rt(raw)), Xr(Rn(raw)), 0, if opc == 1 then Xr(Rt(raw)) else 0, 0,
      Imms(raw), Immr(raw), 0)
  }

  function DecodeExtract(raw: Raw): Option<Dp> {
    var sf, n := Sf(raw), raw / 0x40_0000 % 2;
    if Opc(raw) != 0 || BitAt(raw, 0x20_0000) then None
    else if (sf && n == 0) || (!sf && (n == 1 || Imms(raw) >= 32)) then None
    else Some(Inst(Data(Extract, sf), 0, 0, Xw(Rt(raw)), Xr(Rn(raw)), Xr(Rm(raw)), 0, 0, 0, Imms(raw), 0))
  }

  function DecodeDpImm(raw: Raw, pc: Word): Option<Dp> {
    var g := raw / 0x80_0000 % 8;
    if g <= 1 then Some(DecodeAdr(raw, pc)) else if g == 2 then Some(DecodeAddSubImm(raw))
    else if g == 4 then DecodeLogicImm(raw)
    else if g == 5 then DecodeMoveWide(raw)
    else if g == 6 then DecodeBitfield(raw)
    else if g == 7 then DecodeExtract(raw)
    else None
  }

  // ---- operations on registers -----------------------------------------------------------------

  /** An operation on registers, with its destination and operands where they always are. */
  function OnRegisters(raw: Raw, how: DataOp, ra: byte, sh: byte, amt: byte, sz: byte): Dp {
    Inst(Data(how, Sf(raw)), 0, 0, Xw(Rt(raw)), Xr(Rn(raw)), Xr(Rm(raw)), ra, 0, sh, amt, sz)
  }

  function DecodeLogicReg(raw: Raw): Option<Dp> {
    var opc, inverted, sh := Opc(raw), BitAt(raw, 0x20_0000), raw / 0x40_0000 % 4;
    if !Sf(raw) && Imms(raw) >= 32 then None
    else if opc == 1 && !inverted && Rn(raw) == 31 && Imms(raw) == 0 then Some(OnRegisters(raw, MovReg, 0, sh, 0, 0))
    else Some(OnRegisters(raw, LogicReg(LogicKind(opc), inverted, opc == 3), 0, sh, Imms(raw), 0))
  }

  function DecodeDp2(raw: Raw): Option<Dp> {
    var op := raw / 0x400 % 64;
    if op == 2 then Some(OnRegisters(raw, DivU, 0, 0, 0, 0))
    else if op == 3 then Some(OnRegisters(raw, DivS, 0, 0, 0, 0))
    else if 8 <= op < 12 then Some(OnRegisters(raw, ShiftBy, 0, op % 4, 0, 0))
    else if 16 <= op < 24 then
      if (op % 4 == 3) != Sf(raw) then None else Some(OnRegisters(raw, Crc(op >= 20), 0, 0, 0, Pow2(op % 4)))
    else None
  }

  function DecodeDp1(raw: Raw): Option<Dp> {
    var op := raw / 0x400 % 64;
    if Rm(raw) != 0 then None
    else if op == 0 then Some(OnRegisters(raw, FlipBits, 0, 0, 0, 0))
    else if op == 1 then Some(OnRegisters(raw, FlipBytes(2), 0, 0, 0, 0))
    else if op == 2 then Some(OnRegisters(raw, FlipBytes(4), 0, 0, 0, 0))
    else if op == 3 then (if Sf(raw) then Some(OnRegisters(raw, FlipBytes(8), 0, 0, 0, 0)) else None)
    else if op == 4 then Some(OnRegisters(raw, LeadZeros, 0, 0, 0, 0))
    else if op == 5 then Some(OnRegisters(raw, LeadSigns, 0, 0, 0, 0))
    else None
  }

  function DecodeDp3(raw: Raw): Option<Dp> {
    var sel := raw / 0x20_0000 % 8 * 2 + raw / 0x8000 % 2;
    var ra := Xr(Rt2(raw));
    if Opc(raw) != 0 then None
    else if sel <= 1 then Some(OnRegisters(raw, MulAdd(sel == 1), ra, 0, 0, 0))
    else if !Sf(raw) then None
    else if sel == 2 || sel == 3 then Some(OnRegisters(raw, MulLong(sel == 3, true), ra, 0, 0, 0))
    else if sel == 10 || sel == 11 then Some(OnRegisters(raw, MulLong(sel == 11, false), ra, 0, 0, 0))
    else if sel == 4 || sel == 12 then Some(OnRegisters(raw, MulHigh(sel == 4), ra, 0, 0, 0))
    else None
  }

  function DecodeDpReg(raw: Raw): Option<Dp> {
    var op1, op2 := BitAt(raw, 0x1000_0000), raw / 0x20_0000 % 16;
    if !op1 && op2 < 8 then DecodeLogicReg(raw)
    else if op1 && op2 == 6 then
      if BitAt(raw, 0x2000_0000) then None else if BitAt(raw, 0x4000_0000) then DecodeDp1(raw) else DecodeDp2(raw)
    else if op1 && op2 >= 8 then DecodeDp3(raw)
    else
      var i := DecodeArithReg(raw);
      if i.Some? then Some(i.value) else None
  }

  function DecodeDp(raw: Raw, pc: Word): Option<Dp> {
    var op0 := raw / 0x200_0000 % 16;
    if op0 == 8 || op0 == 9 then DecodeDpImm(raw, pc) else if op0 == 5 || op0 == 13 then DecodeDpReg(raw) else None
  }
}
