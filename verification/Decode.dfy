/** Decoding of the load and store encodings, with register 31 resolved to the zero register, the stack pointer or a
    sink. */
module Decode {
  import opened Words
  import opened Instructions
  import opened FlatMemory
  import opened Lanes
  import opened Machine
  import opened LoadStore
  import opened Arithmetic
  import opened Jumps
  import opened Handlers
  import opened StoreLaws
  import opened HotPaths

  type Raw = x: int | 0 <= x < 0x1_0000_0000

  // Register slots that register number 31 stands for.
  const ZR := 31
  const SINK := 33

  /** A register read: 31 is the zero register. */
  function Xr(n: nat): byte { n % 32 }

  /** A register read or written: 31 is the stack pointer. */
  function Xsp(n: nat): byte { if n % 32 == 31 then SP else n % 32 }

  /** A register written: 31 is discarded. */
  function Xw(n: nat): byte { if n % 32 == 31 then SINK else n % 32 }

  function Rt(raw: Raw): nat { raw % 32 }
  function Rn(raw: Raw): nat { raw / 32 % 32 }
  function Rt2(raw: Raw): nat { raw / 0x400 % 32 }
  function Rm(raw: Raw): nat { raw / 0x1_0000 % 32 }
  predicate BitAt(raw: Raw, p: nat)
    requires p > 0
  {
    raw / p % 2 == 1
  }

  /** An n-bit number with its top bit at half, sign extended to 64 bits. */
  function Sx(v: nat, half: nat): Word
    requires v < 2 * half <= B32
  {
    if v < half then v else v + B64 - 2 * half
  }

  /** An instruction with only its handler, base register, size and extension set. */
  function Blank(fn: Handler, rn: byte, sz: byte, sh: byte): Inst {
    Inst(fn, 0, 0, 0, rn, 0, 0, 0, sh, 0, sz)
  }

  /** Size in bytes, extension, load or store, prefetch. */
  datatype Kind = Kind(bytes: byte, ext: byte, load: bool, prfm: bool)

  function LdstKind(size: nat, opc: nat, vec: bool): Option<Kind>
    requires size < 4 && opc < 4
  {
    var bytes: byte := if size == 0 then 1 else if size == 1 then 2 else if size == 2 then 4 else 8;
    if vec then
      if opc >= 2 then (if size != 0 then None else Some(Kind(16, 0, opc % 2 == 1, false)))
      else Some(Kind(bytes, 0, opc % 2 == 1, false))
    else if opc == 0 then Some(Kind(bytes, 0, false, false))
    else if opc == 1 then Some(Kind(bytes, 0, true, false))
    else if opc == 2 then (if size == 3 then Some(Kind(0, 0, false, true)) else Some(Kind(bytes, 1, true, false)))
    else if size >= 2 then None
    else Some(Kind(bytes, 2, true, false))
  }

  function HotLdSt(load: bool, size: byte, ext: byte): Option<Handler> {
    if ext != 0 then None
    else if load then
      (if size == 8 then Some(Ldr64Off) else if size == 4 then Some(Ldr32Off) else if size == 1 then Some(Ldrb64Off)
        else None)
    else
      (if size == 8 then Some(Str64Off) else if size == 4 then Some(Str32Off) else if size == 1 then Some(Strb64Off)
        else None)
  }

  function HotLdStReg(load: bool, size: byte, ext: byte): Option<Handler> {
    if ext != 0 then None
    else if load then
      (if size == 8 then Some(Ldr64Reg) else if size == 4 then Some(Ldr32Reg) else if size == 1 then Some(Ldrb64Reg)
        else None)
    else
      (if size == 8 then Some(Str64Reg) else if size == 4 then Some(Str32Reg) else if size == 1 then Some(Strb64Reg)
        else None)
  }

  /** Picks by addressing mode. */
  function ByMode(mode: byte, off: Handler, wb: Handler, reg: Handler): Handler {
    if mode == MODE_OFF then off else if mode == MODE_REG then reg else wb
  }

  /** The handler of an already classified register load or store. */
  function SetLdSt(i: Inst, raw: Raw, vec: bool, load: bool): Inst {
    var rd := if vec then Rt(raw) else if load then Xw(Rt(raw)) else Xr(Rt(raw));
    var hot := if vec then None else if i.cond == MODE_OFF then HotLdSt(load, i.sz, i.sh)
               else if i.cond == MODE_REG then HotLdStReg(load, i.sz, i.sh) else None;
    var fn := if hot.Some? then hot.value
              else if vec && load then ByMode(i.cond, VLoadOff, VLoadWb, VLoadReg)
              else if vec then ByMode(i.cond, VStoreOff, VStoreWb, VStoreReg)
              else if load then ByMode(i.cond, LoadOff, LoadWb, LoadReg)
              else ByMode(i.cond, StoreOff, StoreWb, StoreReg);
    i.(rd := rd, fn := fn)
  }

  /** The addressing form of a load or store with a register or a 9-bit offset, before its handler is picked. */
  function RegForm(raw: Raw, k: Kind, size: nat, vec: bool, opc: nat): Option<Inst>
    requires size < 4 && opc < 4
  {
    var i := Blank(Nop, Xsp(Rn(raw)), k.bytes, k.ext);
    if BitAt(raw, 0x20_0000) then
      if raw / 0x400 % 4 != 2 then None
      else
        var option := raw / 0x2000 % 8;
        if option / 2 % 2 == 0 then None
        else
          var amt: byte := if !BitAt(raw, 0x1000) then 0 else if vec && opc >= 2 then 4 else size;
          Some(i.(cond := MODE_REG, rm := Xr(Rm(raw)), ra := option, amt := amt))
    else
      var form := raw / 0x400 % 4;
      if (form == 2 && (vec || k.prfm)) || (form % 2 == 1 && k.prfm) then None
      else
        var mode := if form == 1 then MODE_POST else if form == 3 then MODE_PRE else MODE_OFF;
        Some(i.(cond := mode, imm := Sx(raw / 0x1000 % 0x200, 0x100)))
  }

  function DecodeRegForm(raw: Raw): Option<Inst> {
    var size, vec, opc := raw / 0x4000_0000, BitAt(raw, 0x400_0000), raw / 0x40_0000 % 4;
    match LdstKind(size, opc, vec)
    case None => None
    case Some(k) =>
      match RegForm(raw, k, size, vec, opc)
      case None => None
      case Some(j) => if k.prfm then Some(j) else Some(SetLdSt(j, raw, vec, k.load))
  }

  function DecodeUnsignedImm(raw: Raw): Option<Inst> {
    var size, vec, opc := raw / 0x4000_0000, BitAt(raw, 0x400_0000), raw / 0x40_0000 % 4;
    match LdstKind(size, opc, vec)
    case None => None
    case Some(k) =>
      var scale :=
        if vec && opc >= 2 then 16
        else if size == 0 then 1 else if size == 1 then 2 else if size == 2 then 4 else 8;
      var i := Blank(Nop, Xsp(Rn(raw)), k.bytes, k.ext).(imm := raw / 0x400 % 0x1000 * scale);
      if k.prfm then Some(i) else Some(SetLdSt(i, raw, vec, k.load))
  }

  function DecodeLiteral(raw: Raw, pc: Word): Option<Inst> {
    var opc, vec := raw / 0x4000_0000, BitAt(raw, 0x400_0000);
    var imm := Add(pc, Sx(raw / 32 % 0x8_0000 * 4, 0x10_0000));
    if vec then
      if opc > 2 then None
      else Some(Blank(VLoadOff, ZR, if opc == 0 then 4 else if opc == 1 then 8 else 16, 0).(imm := imm, rd := Rt(raw)))
    else if opc == 3 then Some(Blank(Nop, ZR, 0, 0).(imm := imm))
    else Some(Blank(LoadOff, ZR, if opc == 1 then 8 else 4, if opc == 2 then EXT_SIGN else 0).(imm := imm,
      rd := Xw(Rt(raw))))
  }

  function DecodePair(raw: Raw): Option<Inst> {
    var opc, vec, l := raw / 0x4000_0000, BitAt(raw, 0x400_0000), BitAt(raw, 0x40_0000);
    var form := raw / 0x80_0000 % 4;
    if opc == 3 || (!vec && opc == 1 && (!l || form == 0)) then None
    else
      var bytes := if vec then (if opc == 0 then 4 else if opc == 1 then 8 else 16) else if opc == 2 then 8 else 4;
      var mode := if form == 1 then MODE_POST else if form == 3 then MODE_PRE else MODE_OFF;
      var sh := if !vec && opc == 1 then EXT_SIGN else 0;
      var rd := if vec then Rt(raw) else if l then Xw(Rt(raw)) else Xr(Rt(raw));
      var ra := if vec then Rt2(raw) else if l then Xw(Rt2(raw)) else Xr(Rt2(raw));
      var fn := if vec then (if l then VLoadPair else VStorePair)
                else if l then (if bytes == 8 && mode == MODE_OFF && sh == 0 then Ldp64Off else LoadPair)
                else if bytes == 8 && mode == MODE_OFF then Stp64Off else StorePair;
      Some(Blank(fn, Xsp(Rn(raw)), bytes, sh).(cond := mode, rd := rd, ra := ra,
        imm := Sx(raw / 0x8000 % 0x80, 0x40) * bytes % B64))
  }

  function DecodeExclusive(raw: Raw): Option<Inst> {
    var size, o2, l, o1 := raw / 0x4000_0000, BitAt(raw, 0x80_0000), BitAt(raw, 0x40_0000), BitAt(raw, 0x20_0000);
    var bytes: byte := if size == 0 then 1 else if size == 1 then 2 else if size == 2 then 4 else 8;
    var i := Blank(Nop, Xsp(Rn(raw)), bytes, 0);
    if o2 && o1 then None
    else if o2 then
      if !BitAt(raw, 0x8000) || Rm(raw) != 31 || Rt2(raw) != 31 then None
      else if l then Some(i.(fn := LoadOff, rd := Xw(Rt(raw))))
      else Some(i.(fn := StoreOff, rd := Xr(Rt(raw))))
    else if !o1 then
      if Rt2(raw) != 31 then None
      else if l then (if Rm(raw) != 31 then None else Some(i.(fn := Ldxr, rd := Xw(Rt(raw)))))
      else Some(i.(fn := Stxr, rd := Xr(Rt(raw)), ra := Xw(Rm(raw))))
    else if size < 2 then None
    else if l then (if Rm(raw) != 31 then None else Some(i.(fn := Ldxp, rd := Xw(Rt(raw)), rm := Xw(Rt2(raw)))))
    else Some(i.(fn := Stxp, rd := Xr(Rt(raw)), rm := Xr(Rt2(raw)), ra := Xw(Rm(raw))))
  }

  /** Registers transferred and interleave factor. */
  function MultiShape(opcode: nat): Option<(byte, byte)> {
    if opcode == 0 then Some((4, 4)) else if opcode == 2 then Some((4, 1)) else if opcode == 4 then Some((3, 3))
    else if opcode == 6 then Some((3, 1)) else if opcode == 7 then Some((1, 1)) else if opcode == 8 then Some((2, 2))
    else if opcode == 10 then Some((2, 1)) else None
  }

  function DecodeSimdMulti(raw: Raw): Option<Inst> {
    var l, opcode, size, q := BitAt(raw, 0x40_0000), raw / 0x1000 % 16, raw / 0x400 % 4, BitAt(raw, 0x4000_0000);
    var shape := MultiShape(opcode);
    var post := BitAt(raw, 0x80_0000);
    if shape.None? || (shape.value.1 >= 2 && !q && size == 3) then None
    else if BitAt(raw, 0x20_0000) || (!post && raw / 0x1_0000 % 64 != 0) then None
    else
      var amt: byte := if q then 16 else 8;
      var fn := if l then SimdLoadMulti else SimdStoreMulti;
      var i := Inst(fn, 0, 0, Rt(raw), Xsp(Rn(raw)), 0, shape.value.1, MODE_OFF, shape.value.0, amt, size);
      if !post then Some(i)
      else if Rm(raw) == 31 then Some(i.(cond := MODE_POST, imm := shape.value.0 * amt))
      else Some(i.(cond := MODE_REG, rm := Xr(Rm(raw))))
  }

  /** The load and store group: None for what is unallocated, or absent from the modelled CPU. */
  function DecodeLdSt(raw: Raw, pc: Word): Option<Inst> {
    var top := raw / 0x100_0000 % 64;
    var novec := top - top / 4 % 2 * 4;
    if top == 0x08 then DecodeExclusive(raw)
    else if novec == 0x18 then DecodeLiteral(raw, pc)
    else if top / 8 == 5 then DecodePair(raw)
    else if novec == 0x38 then
      if BitAt(raw, 0x20_0000) && raw / 0x400 % 4 == 0 then None else DecodeRegForm(raw)
    else if novec == 0x39 then DecodeUnsignedImm(raw)
    else if top == 0x0c && raw / 0x8000_0000 == 0 then DecodeSimdMulti(raw)
    else None
  }

  // ---- register 31 -----------------------------------------------------------------------------------------

  predicate MovesBase(i: Inst) { i.cond == MODE_PRE || i.cond == MODE_POST }

  /** The register slots a handler may write. */
  predicate WritesSlot(i: Inst, k: nat) {
    match i.fn
    case LoadOff | LoadReg | Ldxr | Ldr64Off | Ldr32Off | Ldrb64Off | Ldr64Reg | Ldr32Reg | Ldrb64Reg => k == i.rd
    case LoadWb => k == i.rd || (MovesBase(i) && k == i.rn)
    case StoreWb | VLoadWb | VStoreWb | StorePair | VLoadPair | VStorePair => MovesBase(i) && k == i.rn
    case LoadPair => k == i.rd || k == i.ra || (MovesBase(i) && k == i.rn)
    case Ldp64Off => k == i.rd || k == i.ra
    case Ldxp => k == i.rd || k == i.rm
    case Stxr | Stxp => k == i.ra
    case Arith(_, _, _, _) | Data(_, _) => k == i.rd && !OnlyFlags(i)
    case Jump(to) => k == LR && Links(to)
    case SimdLoadMulti | SimdStoreMulti => (i.cond == MODE_POST || i.cond == MODE_REG) && k == i.rn
    case _ => false
  }

  /** The handler is modelled, never writes the zero register's slot, and writes the stack pointer's if and only if
      register 31 is its base and it writes its base back. */
  predicate SlotsOk(i: Inst, raw: Raw, writesBack: bool) {
    Modelled(i) && !WritesSlot(i, ZR) && (WritesSlot(i, SP) <==> Rn(raw) == 31 && writesBack)
  }

  lemma SetSlots(i: Inst, raw: Raw, vec: bool, load: bool)
    requires i.rn == Xsp(Rn(raw))
    ensures SlotsOk(SetLdSt(i, raw, vec, load), raw, MovesBase(i))
  {
  }

  /** The pre- and post-indexed forms, by position. */
  predicate IndexedForm(raw: Raw) { !BitAt(raw, 0x20_0000) && raw / 0x400 % 4 % 2 == 1 }
  predicate IndexedPair(raw: Raw) { raw / 0x80_0000 % 4 % 2 == 1 }

  /** Loads and stores that write their base back, by position. */
  predicate WritesBack(raw: Raw) {
    var top := raw / 0x100_0000 % 64;
    if top / 8 == 5 then IndexedPair(raw)
    else if top - top / 4 % 2 * 4 == 0x38 then IndexedForm(raw)
    else top == 0x0c && BitAt(raw, 0x80_0000)
  }

  lemma RegFormSlots(raw: Raw)
    ensures DecodeRegForm(raw).Some? ==> SlotsOk(DecodeRegForm(raw).value, raw, IndexedForm(raw))
  {
    var size, vec, opc := raw / 0x4000_0000, BitAt(raw, 0x400_0000), raw / 0x40_0000 % 4;
    var kind := LdstKind(size, opc, vec);
    if kind.Some? && !kind.value.prfm && DecodeRegForm(raw).Some? {
      SetSlots(RegForm(raw, kind.value, size, vec, opc).value, raw, vec, kind.value.load);
    }
  }

  lemma UnsignedImmSlots(raw: Raw)
    ensures DecodeUnsignedImm(raw).Some? ==> SlotsOk(DecodeUnsignedImm(raw).value, raw, false)
  {
    var size, vec, opc := raw / 0x4000_0000, BitAt(raw, 0x400_0000), raw / 0x40_0000 % 4;
    var kind := LdstKind(size, opc, vec);
    if kind.Some? && !kind.value.prfm {
      var j := DecodeUnsignedImm(raw).value;
      SetSlots(Inst(Nop, j.imm, j.imm2, 0, j.rn, j.rm, j.ra, j.cond, j.sh, j.amt, j.sz), raw, vec, kind.value.load);
    }
  }

  lemma LiteralSlots(raw: Raw, pc: Word)
    ensures DecodeLiteral(raw, pc).Some? ==> SlotsOk(DecodeLiteral(raw, pc).value, raw, false)
  {
  }

  lemma PairSlots(raw: Raw)
    ensures DecodePair(raw).Some? ==> SlotsOk(DecodePair(raw).value, raw, IndexedPair(raw))
  {
  }

  lemma ExclusiveSlots(raw: Raw)
    ensures DecodeExclusive(raw).Some? ==> SlotsOk(DecodeExclusive(raw).value, raw, false)
  {
  }

  lemma SimdMultiSlots(raw: Raw)
    ensures DecodeSimdMulti(raw).Some? ==> SlotsOk(DecodeSimdMulti(raw).value, raw, BitAt(raw, 0x80_0000))
  {
  }

  /** Every decoded load or store is a modelled handler with a legal shape; it never writes the zero register's slot,
      and the stack pointer's exactly when the word writes back a base register 31. */
  lemma DecodedSlots(raw: Raw, pc: Word)
    requires DecodeLdSt(raw, pc).Some?
    ensures SlotsOk(DecodeLdSt(raw, pc).value, raw, WritesBack(raw))
  {
    var top := raw / 0x100_0000 % 64;
    var novec := top - top / 4 % 2 * 4;
    if top == 0x08 {
      ExclusiveSlots(raw);
    } else if novec == 0x18 {
      LiteralSlots(raw, pc);
    } else if top / 8 == 5 {
      PairSlots(raw);
    } else if novec == 0x38 {
      RegFormSlots(raw);
    } else if novec == 0x39 {
      UnsignedImmSlots(raw);
    } else {
      SimdMultiSlots(raw);
    }
  }

  // ---- what handlers write -----------------------------------------------------------------------------------

  lemma {:induction false} PutVecsRegs(s: Regs, rd: nat, out: seq<Vec>, n: nat)
    requires n <= |out|
    ensures PutVecs(s, rd, out, n).r == s.r
  {
    if n > 0 {
      PutVecsRegs(s, rd, out, n - 1);
    }
  }

  lemma StructureWrites(i: Inst, s: Regs, l: seq<Word>, k: nat)
    requires GoodSimd(i) && k < 256 && !((i.cond == MODE_POST || i.cond == MODE_REG) && k == i.rn)
    ensures SimdLoaded(i, s, l).r[k] == s.r[k] && SimdStored(i, s).r[k] == s.r[k]
  {
    GoodSimdShape(i);
    PutVecsRegs(s, i.rd, Gather(ShapeOf(i), l, Count(ShapeOf(i))), i.sh);
  }

  /** The script leaves register slot k alone, whatever its loads return. */
  predicate Leaves(sc: Script, s: Regs, l: seq<Word>, k: nat)
    requires k < 256
  {
    sc.done(l).regs.r[k] == s.r[k] && sc.fault(l).r[k] == s.r[k]
  }

  predicate BaseMoves(i: Inst, wb: bool, k: nat) { wb && MovesBase(i) && k == i.rn }

  lemma IntWrites(i: Inst, s: Regs, addr: Word, wb: bool, l: seq<Word>, k: nat)
    requires k < 256 && !BaseMoves(i, wb, k)
    ensures k != i.rd ==> Leaves(LoadScript(i, s, addr, wb), s, l, k)
    ensures Leaves(StoreScript(i, s, addr, wb), s, l, k)
  {
  }

  lemma VecWrites(i: Inst, s: Regs, addr: Word, wb: bool, l: seq<Word>, k: nat)
    requires k < 256 && !BaseMoves(i, wb, k)
    ensures Leaves(VLoadScript(i, s, addr, wb), s, l, k)
    ensures Leaves(VStoreScript(i, s, addr, wb), s, l, k)
  {
  }

  lemma PairWrites(i: Inst, s: Regs, l: seq<Word>, k: nat)
    requires k < 256 && !BaseMoves(i, true, k)
    ensures k != i.rd && k != i.ra ==> Leaves(LoadPairScript(i, s), s, l, k)
    ensures Leaves(StorePairScript(i, s), s, l, k)
  {
  }

  lemma VecPairWrites(i: Inst, s: Regs, l: seq<Word>, k: nat)
    requires k < 256 && !BaseMoves(i, true, k)
    ensures Leaves(VLoadPairScript(i, s), s, l, k) && Leaves(VStorePairScript(i, s), s, l, k)
  {
  }

  lemma LoadExclusiveWrites(i: Inst, s: Regs, l: seq<Word>, k: nat)
    requires k < 256 && k != i.rd
    ensures Leaves(LdxrScript(i, s), s, l, k)
    ensures k != i.rm ==> Leaves(LdxpScript(i, s), s, l, k)
  {
  }

  lemma StxrWrites(i: Inst, s: Regs, l: seq<Word>, k: nat)
    requires k < 256 && k != i.ra
    ensures Leaves(StxrScript(i, s), s, l, k)
  {
  }

  lemma StxpWrites(i: Inst, s: Regs, l: seq<Word>, k: nat)
    requires k < 256 && k != i.ra
    ensures Leaves(StxpScript(i, s), s, l, k)
  {
  }

  lemma HotWrites(i: Inst, s: Regs, addr: Word, n: Size, l: seq<Word>, k: nat)
    requires k < 256
    ensures k != i.rd ==> Leaves(HotLoad(i, s, addr, n), s, l, k)
    ensures k != i.rd && k != i.ra ==> Leaves(Ldp64Script(i, s), s, l, k)
    ensures Leaves(HotStore(i, s, addr, n), s, l, k) && Leaves(Stp64Script(i, s), s, l, k)
      && Leaves(DcZvaScript(i, s), s, l, k)
  {
  }

  /** Whatever the loads return, a handler changes no register slot it may not write. */
  lemma CommitWrites(i: Inst, s: Regs, other: Meaning, l: seq<Word>, k: nat)
    requires Modelled(i) && k < 256 && !WritesSlot(i, k)
    ensures Leaves(Handle(i, s, other), s, l, k)
  {
    match i.fn
    case SimdLoadMulti | SimdStoreMulti => StructureWrites(i, s, l, k);
    case LoadOff | StoreOff => IntWrites(i, s, AddrOff(i, s), false, l, k);
    case LoadReg | StoreReg => IntWrites(i, s, AddrReg(i, s), false, l, k);
    case LoadWb | StoreWb => IntWrites(i, s, AddrFor(i, s), true, l, k);
    case VLoadOff | VStoreOff => VecWrites(i, s, AddrOff(i, s), false, l, k);
    case VLoadReg | VStoreReg => VecWrites(i, s, AddrReg(i, s), false, l, k);
    case VLoadWb | VStoreWb => VecWrites(i, s, AddrFor(i, s), true, l, k);
    case LoadPair | StorePair => PairWrites(i, s, l, k);
    case VLoadPair | VStorePair => VecPairWrites(i, s, l, k);
    case Ldxr | Ldxp => LoadExclusiveWrites(i, s, l, k);
    case Stxr => StxrWrites(i, s, l, k);
    case Stxp => StxpWrites(i, s, l, k);
    case Ldr64Off | Str64Off | Ldp64Off | Stp64Off | DcZva => HotWrites(i, s, AddrOff(i, s), 8, l, k);
    case Ldr32Off | Str32Off => HotWrites(i, s, AddrOff(i, s), 4, l, k);
    case Ldrb64Off | Strb64Off => HotWrites(i, s, AddrOff(i, s), 1, l, k);
    case Ldr64Reg | Str64Reg => HotWrites(i, s, AddrReg(i, s), 8, l, k);
    case Ldr32Reg | Str32Reg => HotWrites(i, s, AddrReg(i, s), 4, l, k);
    case Ldrb64Reg | Strb64Reg => HotWrites(i, s, AddrReg(i, s), 1, l, k);
    case Arith(_, _, _, _) | Data(_, _) => ExecWrites(i, s, k);
    case Jump(_) => JumpWrites(i, s, k);
    case Clrex | Nop =>
  }

  lemma HandlerWrites(i: Inst, s: Regs, other: Meaning, m: Mem, k: nat)
    requires Modelled(i) && k < 256 && !WritesSlot(i, k)
    ensures RunScript(Handle(i, s, other), s, m).0.r[k] == s.r[k]
  {
    var sc := Handle(i, s, other);
    CommitWrites(i, s, other, Perform(m, sc.accs).loaded, k);
    RunIs(sc, s, m);
  }

  /** Executing any decoded load or store leaves the zero register zero, and the stack pointer alone unless the word
      writes it back as its base. */
  lemma ZeroStaysZero(raw: Raw, pc: Word, s: Regs, other: Meaning, m: Mem)
    requires DecodeLdSt(raw, pc).Some?
    ensures var r := RunScript(Handle(DecodeLdSt(raw, pc).value, s, other), s, m).0.r;
      r[ZR] == s.r[ZR] && (!(Rn(raw) == 31 && WritesBack(raw)) ==> r[SP] == s.r[SP])
  {
    var i := DecodeLdSt(raw, pc).value;
    DecodedSlots(raw, pc);
    HandlerWrites(i, s, other, m, ZR);
    if !(Rn(raw) == 31 && WritesBack(raw)) {
      HandlerWrites(i, s, other, m, SP);
    }
  }

  /** Every decoded store is all-or-nothing, and every decoded load changes no byte. */
  lemma DecodedAtomic(raw: Raw, pc: Word, s: Regs, other: Meaning, m: Mem)
    requires DecodeLdSt(raw, pc).Some? && Bounded(m.flat)
    ensures var i := DecodeLdSt(raw, pc).value;
      var (r, m', stop) := RunScript(Handle(i, s, other), s, m);
      && (IsStore(i.fn) && stop.Some? ==> m' == m && r == s.(exclValid := r.exclValid))
      && (!IsStore(i.fn) ==> m'.flat == m.flat)
  {
    DecodedSlots(raw, pc);
    AllOrNothing(DecodeLdSt(raw, pc).value, s, other, m);
  }

  // ---- specialised handlers against generic ones ---------------------------------------------------------------

  predicate OffLoad(fn: Handler) { fn.Ldr64Off? || fn.Ldr32Off? || fn.Ldrb64Off? }
  predicate RegLoad(fn: Handler) { fn.Ldr64Reg? || fn.Ldr32Reg? || fn.Ldrb64Reg? }
  predicate OffStore(fn: Handler) { fn.Str64Off? || fn.Str32Off? || fn.Strb64Off? }
  predicate RegStore(fn: Handler) { fn.Str64Reg? || fn.Str32Reg? || fn.Strb64Reg? }

  /** The instruction with the generic handler in place of a specialised one. */
  function Generic(i: Inst): Inst {
    match i.fn
    case Ldr64Off | Ldr32Off | Ldrb64Off => i.(fn := LoadOff)
    case Ldr64Reg | Ldr32Reg | Ldrb64Reg => i.(fn := LoadReg)
    case Str64Off | Str32Off | Strb64Off => i.(fn := StoreOff)
    case Str64Reg | Str32Reg | Strb64Reg => i.(fn := StoreReg)
    case Ldp64Off => i.(fn := LoadPair)
    case Stp64Off => i.(fn := StorePair)
    case _ => i
  }

  /** A specialised handler is decoded only for its own size, extension and mode. */
  predicate Specialised(i: Inst) {
    match i.fn
    case Ldr64Off | Ldr64Reg => i.sz == 8 && i.sh == 0
    case Ldr32Off | Ldr32Reg => i.sz == 4 && i.sh == 0
    case Ldrb64Off | Ldrb64Reg => i.sz == 1 && i.sh == 0
    case Str64Off | Str64Reg => i.sz == 8
    case Str32Off | Str32Reg => i.sz == 4
    case Strb64Off | Strb64Reg => i.sz == 1
    case Ldp64Off => i.sz == 8 && i.sh == 0 && i.cond == MODE_OFF
    case Stp64Off => i.sz == 8 && i.cond == MODE_OFF
    case _ => true
  }

  lemma DecodedSpecialised(raw: Raw, pc: Word)
    requires DecodeLdSt(raw, pc).Some?
    ensures Specialised(DecodeLdSt(raw, pc).value)
  {
    var top := raw / 0x100_0000 % 64;
    var novec := top - top / 4 % 2 * 4;
    if top == 0x08 {
      ExclusiveSpecialised(raw);
    } else if novec == 0x38 {
      RegFormSpecialised(raw);
    } else if novec == 0x39 {
      UnsignedImmSpecialised(raw);
    } else if top / 8 == 5 {
      PairSpecialised(raw);
    }
  }

  lemma ExclusiveSpecialised(raw: Raw)
    ensures DecodeExclusive(raw).Some? ==> Specialised(DecodeExclusive(raw).value)
  {
  }

  lemma PairSpecialised(raw: Raw)
    ensures DecodePair(raw).Some? ==> Specialised(DecodePair(raw).value)
  {
  }

  lemma SetSpecialised(i: Inst, raw: Raw, vec: bool, load: bool)
    ensures Specialised(SetLdSt(i, raw, vec, load))
  {
  }

  lemma RegFormSpecialised(raw: Raw)
    ensures DecodeRegForm(raw).Some? ==> Specialised(DecodeRegForm(raw).value)
  {
    var size, vec, opc := raw / 0x4000_0000, BitAt(raw, 0x400_0000), raw / 0x40_0000 % 4;
    var kind := LdstKind(size, opc, vec);
    if kind.Some? && !kind.value.prfm && DecodeRegForm(raw).Some? {
      SetSpecialised(RegForm(raw, kind.value, size, vec, opc).value, raw, vec, kind.value.load);
    }
  }

  lemma UnsignedImmSpecialised(raw: Raw)
    ensures DecodeUnsignedImm(raw).Some? ==> Specialised(DecodeUnsignedImm(raw).value)
  {
  }

  /** Two runs from s agree on the stop, the bytes and the read hooks' calls; and on the registers, unless a pair load
      faulted: then at most its first register has been assigned, and by the first run only. */
  predicate Agree(i: Inst, s: Regs, a: (Regs, Mem, Option<Stop>), b: (Regs, Mem, Option<Stop>)) {
    a.2 == b.2 && a.1 == b.1.(log := a.1.log) && (IsStore(i.fn) || a.1 == b.1)
      && (a.0 == b.0 || (i.fn == Ldp64Off && a.2.Some? && b.0 == s && a.0 == SetR(s, i.rd, a.0.r[i.rd])))
  }

  /** Every decoded word does what its generic handler does: the same stop, the same bytes, the same registers (but for
      the first register of a pair load that faults), and the same calls to read hooks. */
  lemma DecodedRefines(raw: Raw, pc: Word, s: Regs, other: Meaning, m: Mem)
    requires DecodeLdSt(raw, pc).Some?
    ensures var i := DecodeLdSt(raw, pc).value;
      Agree(i, s, RunScript(Handle(i, s, other), s, m), RunScript(Handle(Generic(i), s, other), s, m))
  {
    DecodedSpecialised(raw, pc);
    GenericRefined(DecodeLdSt(raw, pc).value, s, other, m);
  }

  lemma LoadRefined(i: Inst, s: Regs, a: Word, m: Mem)
    requires i.sh == 0 && !i.fn.Ldp64Off?
    ensures Agree(i, s, RunScript(HotLoad(i, s, a, Sz(i.sz)), s, m), RunScript(LoadScript(i, s, a, false), s, m))
  {
    HotLoadIsLoad(i, s, a, m);
  }

  lemma StoreRefined(i: Inst, s: Regs, a: Word, m: Mem)
    requires IsStore(i.fn)
    ensures Agree(i, s, RunScript(HotStore(i, s, a, Sz(i.sz)), s, m), RunScript(StoreScript(i, s, a, false), s, m))
  {
    HotStoreIsStore(i, s, a, m);
  }

  lemma GenericRefined(i: Inst, s: Regs, other: Meaning, m: Mem)
    requires Specialised(i)
    ensures Agree(i, s, RunScript(Handle(i, s, other), s, m), RunScript(Handle(Generic(i), s, other), s, m))
  {
    match i.fn
    case Ldr64Off | Ldr32Off | Ldrb64Off | Ldr64Reg | Ldr32Reg | Ldrb64Reg => LoadsRefined(i, s, other, m);
    case Str64Off | Str32Off | Strb64Off | Str64Reg | Str32Reg | Strb64Reg => StoresRefined(i, s, other, m);
    case Ldp64Off => LdpRefined(i, s, other, m);
    case Stp64Off => StpRefined(i, s, other, m);
    case _ => AgreeSelf(i, s, RunScript(Handle(i, s, other), s, m));
  }

  lemma AgreeSelf(i: Inst, s: Regs, a: (Regs, Mem, Option<Stop>))
    ensures Agree(i, s, a, a)
  {
  }

  lemma LdpRefined(i: Inst, s: Regs, other: Meaning, m: Mem)
    requires Specialised(i) && i.fn == Ldp64Off
    ensures Agree(i, s, RunScript(Handle(i, s, other), s, m), RunScript(Handle(Generic(i), s, other), s, m))
  {
    PairLoadRefined(i, s, m);
    LdpHandles(i, s, other);
    LdpGeneric(i, s, other);
  }

  lemma LdpHandles(i: Inst, s: Regs, other: Meaning)
    requires i.fn == Ldp64Off
    ensures Handle(i, s, other) == Ldp64Script(i, s)
  {
  }

  lemma LdpGeneric(i: Inst, s: Regs, other: Meaning)
    requires i.fn == Ldp64Off
    ensures Handle(Generic(i), s, other) == LoadPairScript(i.(fn := LoadPair), s)
  {
    assert Generic(i) == i.(fn := LoadPair);
  }

  lemma StpRefined(i: Inst, s: Regs, other: Meaning, m: Mem)
    requires Specialised(i) && i.fn == Stp64Off
    ensures Agree(i, s, RunScript(Handle(i, s, other), s, m), RunScript(Handle(Generic(i), s, other), s, m))
  {
    PairStoreRefined(i, s, m);
    StpHandles(i, s, other);
    StpGeneric(i, s, other);
  }

  lemma StpHandles(i: Inst, s: Regs, other: Meaning)
    requires i.fn == Stp64Off
    ensures Handle(i, s, other) == Stp64Script(i, s)
  {
  }

  lemma StpGeneric(i: Inst, s: Regs, other: Meaning)
    requires i.fn == Stp64Off
    ensures Handle(Generic(i), s, other) == StorePairScript(i.(fn := StorePair), s)
  {
    assert Generic(i) == i.(fn := StorePair);
  }

  lemma LoadsRefined(i: Inst, s: Regs, other: Meaning, m: Mem)
    requires Specialised(i)
      && (OffLoad(i.fn) || RegLoad(i.fn))
    ensures Agree(i, s, RunScript(Handle(i, s, other), s, m), RunScript(Handle(Generic(i), s, other), s, m))
  {
    var a := if OffLoad(i.fn) then AddrOff(i, s) else AddrReg(i, s);
    LoadRefined(i, s, a, m);
    GenericLoad(i, s, a, if OffLoad(i.fn) then LoadOff else LoadReg, m);
  }

  lemma StoresRefined(i: Inst, s: Regs, other: Meaning, m: Mem)
    requires Specialised(i)
      && (OffStore(i.fn) || RegStore(i.fn))
    ensures Agree(i, s, RunScript(Handle(i, s, other), s, m), RunScript(Handle(Generic(i), s, other), s, m))
  {
    var a := if OffStore(i.fn) then AddrOff(i, s) else AddrReg(i, s);
    StoreRefined(i, s, a, m);
    GenericStore(i, s, a, if OffStore(i.fn) then StoreOff else StoreReg, m);
  }

  lemma GenericLoad(i: Inst, s: Regs, a: Word, fn: Handler, m: Mem)
    ensures RunScript(LoadScript(i.(fn := fn), s, a, false), s, m) == RunScript(LoadScript(i, s, a, false), s, m)
  {
    SameRuns(LoadScript(i.(fn := fn), s, a, false), LoadScript(i, s, a, false), s, m);
  }

  lemma GenericStore(i: Inst, s: Regs, a: Word, fn: Handler, m: Mem)
    ensures RunScript(StoreScript(i.(fn := fn), s, a, false), s, m) == RunScript(StoreScript(i, s, a, false), s, m)
  {
    SameRuns(StoreScript(i.(fn := fn), s, a, false), StoreScript(i, s, a, false), s, m);
  }

  lemma PairLoadRefined(i: Inst, s: Regs, m: Mem)
    requires i.fn == Ldp64Off && i.sz == 8 && i.sh == 0 && i.cond == MODE_OFF
    ensures Agree(i, s, RunScript(Ldp64Script(i, s), s, m), RunScript(LoadPairScript(i.(fn := LoadPair), s), s, m))
  {
    Ldp64IsLoadPair(i, s, m);
    SameRuns(LoadPairScript(i.(fn := LoadPair), s), LoadPairScript(i, s), s, m);
  }

  lemma PairStoreRefined(i: Inst, s: Regs, m: Mem)
    requires i.fn == Stp64Off && i.sz == 8 && i.cond == MODE_OFF
    ensures Agree(i, s, RunScript(Stp64Script(i, s), s, m), RunScript(StorePairScript(i.(fn := StorePair), s), s, m))
  {
    Stp64IsStorePair(i, s, m);
    SameRuns(StorePairScript(i.(fn := StorePair), s), StorePairScript(i, s), s, m);
  }
}
