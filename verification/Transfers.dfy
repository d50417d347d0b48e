/** Integer loads and stores against the architecture: what each accepted word does to the registers a program sees
    and to memory. */
module Transfers {
  import opened Words
  import opened Instructions
  import opened FlatMemory
  import opened Machine
  import opened LoadStore
  import opened Handlers
  import opened HotPaths
  import opened Decode
  import opened DataProc

  // ---- the architecture ------------------------------------------------------------------------

  /** How the base register moves: not at all, before the access, or after it. */
  datatype Move = Stay | Pre | Post

  /** The registers a program sees, memory, and why execution stopped. */
  type Result3 = (Arch, Mem, Option<Stop>)

  function Moved(t: Arch, rn: nat, move: Move, to: Word): Arch
    requires rn < 32
  {
    if move.Stay? then t else WriteXSP(t, rn, to)
  }

  /** A loaded value extended: 0 with zeros, 1 with its sign to 64 bits, 2 with its sign to 32 bits. */
  function Extension(ext: nat, n: Size, v: Word): Word {
    if ext == 1 then SextN(v, n) else if ext == 2 then SextN(v, n) % B32 else v
  }

  /** Register rt is loaded or stored, n bytes at the base or at base + off; the base moves after the access. */
  function Single(t: Arch, m: Mem, load: bool, n: Size, ext: nat, rt: nat, rn: nat, off: Word, move: Move): Result3
    requires rt < 32 && rn < 32
  {
    var base := XSP(t, rn);
    var to := Add(base, off);
    var addr := if move.Post? then base else to;
    if load then
      var (m', r) := Load(m, addr, n);
      if r.Err? then (t, m', Some(Faulted(r.fault)))
      else
        assert AccessSize(n);
        (Next4(Moved(WriteX(t, rt, Extension(ext, n, r.value)), rn, move, to)), m', None)
    else
      var (m', e) := Store(m, addr, n, Low(X(t, rt), n));
      if e.Some? then (t, m', Some(Faulted(e.value))) else (Next4(Moved(t, rn, move, to)), m', None)
  }

  /** Registers rt and rt2 are loaded from or stored to adjacent places; the whole is checked first. */
  function Pair(t: Arch, m: Mem, load: bool, n: Size, ext: nat, rt: nat, rt2: nat, rn: nat, off: Word,
      move: Move): Result3
    requires rt < 32 && rt2 < 32 && rn < 32
  {
    var base := XSP(t, rn);
    var to := Add(base, off);
    var addr := if move.Post? then base else to;
    assert AccessSize(n);
    if load then
      var p := Perform(m, [CheckRead(addr, 2 * n), LoadN(addr, n), LoadN(Add(addr, n), n)]);
      if p.fault.Some? then (t, p.mem, Some(Faulted(p.fault.value)))
      else
        var v, w := Extension(ext, n, At(p.loaded, 0)), Extension(ext, n, At(p.loaded, 1));
        (Next4(Moved(WriteX(WriteX(t, rt, v), rt2, w), rn, move, to)), p.mem, None)
    else
      var p := Perform(m,
        [CheckWrite(addr, 2 * n), StoreN(addr, n, Low(X(t, rt), n)), StoreN(Add(addr, n), n, Low(X(t, rt2), n))]);
      if p.fault.Some? then (t, p.mem, Some(Faulted(p.fault.value))) else (Next4(Moved(t, rn, move, to)), p.mem, None)
  }

  /** Size, extension and direction of an integer load or store, by its size and opc fields. */
  function BytesOf(raw: Raw): Size {
    var size := raw / 0x4000_0000;
    if size == 0 then 1 else if size == 1 then 2 else if size == 2 then 4 else 8
  }

  function ExtOf(raw: Raw): nat {
    var opc := raw / 0x40_0000 % 4;
    if opc == 2 then 1 else if opc == 3 then 2 else 0
  }

  function MoveAt(form: nat): Move {
    if form == 1 then Post else if form == 3 then Pre else Stay
  }

  /** Single transfers with a scaled 12-bit offset, a signed 9-bit offset or an extended register offset. */
  function ArchSingle(raw: Raw, t: Arch, m: Mem): Result3 {
    var load := raw / 0x40_0000 % 4 != 0;
    var off := if BitAt(raw, 0x100_0000) then raw / 0x400 % 0x1000 * BytesOf(raw)
               else if BitAt(raw, 0x20_0000) then
                 Shl(Extend(X(t, Rm(raw)), raw / 0x2000 % 8), if BitAt(raw, 0x1000) then raw / 0x4000_0000 else 0)
               else Sx(raw / 0x1000 % 0x200, 0x100);
    var move := if BitAt(raw, 0x100_0000) || BitAt(raw, 0x20_0000) then Stay else MoveAt(raw / 0x400 % 4);
    Single(t, m, load, BytesOf(raw), ExtOf(raw), Rt(raw), Rn(raw), off, move)
  }

  /** Pairs: opc 2 is 64-bit, opc 1 the sign-extending 32-bit load; the 7-bit offset counts registers. */
  function ArchPair(raw: Raw, t: Arch, m: Mem): Result3 {
    var opc := raw / 0x4000_0000;
    var n: Size := if opc == 2 then 8 else 4;
    Pair(t, m, BitAt(raw, 0x40_0000), n, if opc == 1 then 1 else 0, Rt(raw), Rt2(raw), Rn(raw),
      Sx(raw / 0x8000 % 0x80, 0x40) * n % B64, MoveAt(raw / 0x80_0000 % 4))
  }

  // ---- scripts, seen through the architecture's registers ------------------------------------------

  function Seen(r: (Regs, Mem, Option<Stop>)): Result3 {
    (View(r.0), r.1, r.2)
  }

  function MoveOf(mode: nat): Move {
    if mode == MODE_PRE then Pre else if mode == MODE_POST then Post else Stay
  }

  lemma BaseMoved(i: Inst, s: Regs, t: Regs, rn: nat, to: Word)
    requires t.r[ZR] == 0 && rn < 32 && i.rn == Xsp(rn)
      && (i.cond == MODE_PRE || i.cond == MODE_POST || i.cond == MODE_OFF)
    requires s.r[i.rn] == XSP(View(s), rn) && to == Add(s.r[i.rn], i.imm)
    ensures View(Advance(Writeback(i, t, AddrFor(i, s)))) == Next4(Moved(View(t), rn, MoveOf(i.cond), to))
  {
    WritesAgree(t, rn, to);
  }

  lemma LoadSeen(i: Inst, s: Regs, m: Mem, rt: nat, rn: nat)
    requires s.r[ZR] == 0 && rt < 32 && rn < 32 && i.rn == Xsp(rn) && i.rd == Xw(rt) && i.sh <= 2
    requires i.cond == MODE_PRE || i.cond == MODE_POST || i.cond == MODE_OFF
    ensures Seen(RunScript(LoadScript(i, s, AddrFor(i, s), true), s, m)) ==
      Single(View(s), m, true, Sz(i.sz), i.sh, rt, rn, i.imm, MoveOf(i.cond))
  {
    ReadsAgree(s, rn);
    var a, n := AddrFor(i, s), Sz(i.sz);
    Perform1(m, LoadN(a, n));
    RunIs(LoadScript(i, s, a, true), s, m);
    var r := Load(m, a, n).1;
    if r.Ok? {
      assert AccessSize(n);
      assert [] + [r.value] == [r.value];
      var v: Word := LoadValue(i, r.value);
      WritesAgree(s, rt, v);
      BaseMoved(i, s, SetR(s, i.rd, v), rn, Add(s.r[i.rn], i.imm));
    }
  }

  lemma StoreSeen(i: Inst, s: Regs, m: Mem, rt: nat, rn: nat)
    requires s.r[ZR] == 0 && rt < 32 && rn < 32 && i.rn == Xsp(rn) && i.rd == Xr(rt)
    requires i.cond == MODE_PRE || i.cond == MODE_POST || i.cond == MODE_OFF
    ensures Seen(RunScript(StoreScript(i, s, AddrFor(i, s), true), s, m)) ==
      Single(View(s), m, false, Sz(i.sz), i.sh, rt, rn, i.imm, MoveOf(i.cond))
  {
    ReadsAgree(s, rn);
    ReadsAgree(s, rt);
    var a, n := AddrFor(i, s), Sz(i.sz);
    Perform1(m, StoreN(a, n, Low(s.r[i.rd], n)));
    RunIs(StoreScript(i, s, a, true), s, m);
    BaseMoved(i, s, s, rn, Add(s.r[i.rn], i.imm));
  }

  lemma LoadRegSeen(i: Inst, s: Regs, m: Mem, rt: nat, rn: nat)
    requires s.r[ZR] == 0 && rt < 32 && rn < 32 && i.rn == Xsp(rn) && i.rd == Xw(rt) && i.sh <= 2
    ensures Seen(RunScript(LoadScript(i, s, AddrReg(i, s), false), s, m)) ==
      Single(View(s), m, true, Sz(i.sz), i.sh, rt, rn, Shl(Extend(s.r[i.rm], i.ra), i.amt), Stay)
  {
    ReadsAgree(s, rn);
    var a, n := AddrReg(i, s), Sz(i.sz);
    Perform1(m, LoadN(a, n));
    RunIs(LoadScript(i, s, a, false), s, m);
    var r := Load(m, a, n).1;
    if r.Ok? {
      assert AccessSize(n);
      assert [] + [r.value] == [r.value];
      WritesAgree(s, rt, LoadValue(i, r.value));
    }
  }

  lemma StoreRegSeen(i: Inst, s: Regs, m: Mem, rt: nat, rn: nat)
    requires s.r[ZR] == 0 && rt < 32 && rn < 32 && i.rn == Xsp(rn) && i.rd == Xr(rt)
    ensures Seen(RunScript(StoreScript(i, s, AddrReg(i, s), false), s, m)) ==
      Single(View(s), m, false, Sz(i.sz), i.sh, rt, rn, Shl(Extend(s.r[i.rm], i.ra), i.amt), Stay)
  {
    ReadsAgree(s, rn);
    ReadsAgree(s, rt);
    var a, n := AddrReg(i, s), Sz(i.sz);
    Perform1(m, StoreN(a, n, Low(s.r[i.rd], n)));
    RunIs(StoreScript(i, s, a, false), s, m);
  }

  lemma LoadPairSeen(i: Inst, s: Regs, m: Mem, rt: nat, rt2: nat, rn: nat)
    requires s.r[ZR] == 0 && rt < 32 && rt2 < 32 && rn < 32 && i.rn == Xsp(rn) && i.rd == Xw(rt) && i.ra == Xw(rt2)
      && i.sh <= 1
    requires i.cond == MODE_PRE || i.cond == MODE_POST || i.cond == MODE_OFF
    ensures Seen(RunScript(LoadPairScript(i, s), s, m)) ==
      Pair(View(s), m, true, Sz(i.sz), i.sh, rt, rt2, rn, i.imm, MoveOf(i.cond))
  {
    ReadsAgree(s, rn);
    var sc, n := LoadPairScript(i, s), Sz(i.sz);
    RunIs(sc, s, m);
    var p := Perform(m, sc.accs);
    var v, w := Extension(i.sh, n, At(p.loaded, 0)), Extension(i.sh, n, At(p.loaded, 1));
    WritesAgree(s, rt, v);
    WritesAgree(SetR(s, i.rd, v), rt2, w);
    BaseMoved(i, s, SetR(SetR(s, i.rd, v), i.ra, w), rn, Add(s.r[i.rn], i.imm));
    assert LoadPairCommit(i, s, At(p.loaded, 0), At(p.loaded, 1)) ==
      Advance(Writeback(i, SetR(SetR(s, i.rd, v), i.ra, w), AddrFor(i, s)));
  }

  lemma StorePairSeen(i: Inst, s: Regs, m: Mem, rt: nat, rt2: nat, rn: nat)
    requires s.r[ZR] == 0 && rt < 32 && rt2 < 32 && rn < 32 && i.rn == Xsp(rn) && i.rd == Xr(rt) && i.ra == Xr(rt2)
    requires i.cond == MODE_PRE || i.cond == MODE_POST || i.cond == MODE_OFF
    ensures Seen(RunScript(StorePairScript(i, s), s, m)) ==
      Pair(View(s), m, false, Sz(i.sz), i.sh, rt, rt2, rn, i.imm, MoveOf(i.cond))
  {
    ReadsAgree(s, rn);
    ReadsAgree(s, rt);
    ReadsAgree(s, rt2);
    RunIs(StorePairScript(i, s), s, m);
    BaseMoved(i, s, s, rn, Add(s.r[i.rn], i.imm));
  }

  // ---- decoded words ------------------------------------------------------------------------------------

  /** Without write-back and at the plain offset, both forms of a handler agree. */
  lemma OffsetForms(i: Inst, s: Regs, m: Mem)
    requires i.cond == MODE_OFF
    ensures RunScript(LoadScript(i, s, AddrOff(i, s), false), s, m)
      == RunScript(LoadScript(i, s, AddrFor(i, s), true), s, m)
    ensures RunScript(StoreScript(i, s, AddrOff(i, s), false), s, m)
      == RunScript(StoreScript(i, s, AddrFor(i, s), true), s, m)
  {
    SameRuns(LoadScript(i, s, AddrOff(i, s), false), LoadScript(i, s, AddrFor(i, s), true), s, m);
    SameRuns(StoreScript(i, s, AddrOff(i, s), false), StoreScript(i, s, AddrFor(i, s), true), s, m);
  }

  /** The generic handler an integer transfer is decoded to, by mode. */
  lemma GenericFn(i: Inst, raw: Raw, load: bool)
    requires i.cond <= 3
    ensures Generic(SetLdSt(i, raw, false, load)).fn ==
      if load then ByMode(i.cond, LoadOff, LoadWb, LoadReg) else ByMode(i.cond, StoreOff, StoreWb, StoreReg)
    ensures var j := SetLdSt(i, raw, false, load);
      Generic(j) == i.(rd := if load then Xw(Rt(raw)) else Xr(Rt(raw)), fn := Generic(j).fn)
  {
  }

  lemma TransferSeen(i: Inst, raw: Raw, load: bool, s: Regs, other: Meaning, m: Mem)
    requires s.r[ZR] == 0 && i.cond <= 3 && i.rn == Xsp(Rn(raw)) && i.sh <= 2
    ensures var g := Generic(SetLdSt(i, raw, false, load));
      Seen(RunScript(Handle(g, s, other), s, m)) ==
      Single(View(s), m, load, Sz(i.sz), i.sh, Rt(raw), Rn(raw),
        if i.cond == MODE_REG then Shl(Extend(s.r[i.rm], i.ra), i.amt) else i.imm, MoveOf(i.cond))
  {
    GenericFn(i, raw, load);
    var g := Generic(SetLdSt(i, raw, false, load));
    if i.cond == MODE_REG {
      if load { LoadRegSeen(g, s, m, Rt(raw), Rn(raw)); } else { StoreRegSeen(g, s, m, Rt(raw), Rn(raw)); }
    } else {
      if i.cond == MODE_OFF { OffsetForms(g, s, m); }
      if load { LoadSeen(g, s, m, Rt(raw), Rn(raw)); } else { StoreSeen(g, s, m, Rt(raw), Rn(raw)); }
    }
  }

  /** Integer words of the two single-register groups that are not prefetches. */
  predicate IntegerSingle(raw: Raw) {
    !BitAt(raw, 0x400_0000) && !(raw / 0x40_0000 % 4 == 2 && raw / 0x4000_0000 == 3)
  }

  lemma KindIs(raw: Raw)
    requires IntegerSingle(raw)
    ensures var k := LdstKind(raw / 0x4000_0000, raw / 0x40_0000 % 4, false);
      k.Some? ==>
        k.value.bytes == BytesOf(raw) && k.value.ext == ExtOf(raw)
        && k.value.load == (raw / 0x40_0000 % 4 != 0) && !k.value.prfm
  {
  }

  lemma UnsignedImmSeen(raw: Raw, s: Regs, other: Meaning, m: Mem)
    requires s.r[ZR] == 0 && IntegerSingle(raw) && BitAt(raw, 0x100_0000) && DecodeUnsignedImm(raw).Some?
    ensures Seen(RunScript(Handle(Generic(DecodeUnsignedImm(raw).value), s, other), s, m))
      == ArchSingle(raw, View(s), m)
  {
    KindIs(raw);
    var n := BytesOf(raw);
    assert AccessSize(n);
    var i := Blank(Nop, Xsp(Rn(raw)), n, ExtOf(raw)).(imm := raw / 0x400 % 0x1000 * n);
    var load := raw / 0x40_0000 % 4 != 0;
    assert DecodeUnsignedImm(raw).value == SetLdSt(i, raw, false, load);
    TransferSeen(i, raw, load, s, other, m);
  }

  lemma RegFormSeen(raw: Raw, s: Regs, other: Meaning, m: Mem)
    requires s.r[ZR] == 0 && IntegerSingle(raw) && !BitAt(raw, 0x100_0000) && DecodeRegForm(raw).Some?
    ensures Seen(RunScript(Handle(Generic(DecodeRegForm(raw).value), s, other), s, m)) == ArchSingle(raw, View(s), m)
  {
    KindIs(raw);
    ReadsAgree(s, Rm(raw));
    var n := BytesOf(raw);
    assert AccessSize(n);
    var load := raw / 0x40_0000 % 4 != 0;
    var b := Blank(Nop, Xsp(Rn(raw)), n, ExtOf(raw));
    var form := raw / 0x400 % 4;
    var i := if BitAt(raw, 0x20_0000) then
               b.(cond := MODE_REG, rm := Xr(Rm(raw)), ra := raw / 0x2000 % 8,
                 amt := if BitAt(raw, 0x1000) then raw / 0x4000_0000 else 0)
             else b.(cond := if form == 1 then MODE_POST else if form == 3 then MODE_PRE else MODE_OFF,
                     imm := Sx(raw / 0x1000 % 0x200, 0x100));
    assert DecodeRegForm(raw).value == SetLdSt(i, raw, false, load);
    TransferSeen(i, raw, load, s, other, m);
  }

  lemma PairSeen(raw: Raw, s: Regs, other: Meaning, m: Mem)
    requires s.r[ZR] == 0 && !BitAt(raw, 0x400_0000) && DecodePair(raw).Some?
    ensures Seen(RunScript(Handle(Generic(DecodePair(raw).value), s, other), s, m)) == ArchPair(raw, View(s), m)
  {
    var g := Generic(DecodePair(raw).value);
    PairFields(raw, g);
    PairHandled(g, s, other);
    if BitAt(raw, 0x40_0000) {
      LoadPairSeen(g, s, m, Rt(raw), Rt2(raw), Rn(raw));
    } else {
      StorePairSeen(g, s, m, Rt(raw), Rt2(raw), Rn(raw));
    }
    assert MoveOf(g.cond) == MoveAt(raw / 0x80_0000 % 4);
  }

  lemma PairHandled(g: Inst, s: Regs, other: Meaning)
    ensures g.fn == LoadPair ==> Handle(g, s, other) == LoadPairScript(g, s)
    ensures g.fn == StorePair ==> Handle(g, s, other) == StorePairScript(g, s)
  {
  }

  lemma PairFields(raw: Raw, g: Inst)
    requires !BitAt(raw, 0x400_0000) && DecodePair(raw).Some? && g == Generic(DecodePair(raw).value)
    ensures var opc, l, form := raw / 0x4000_0000, BitAt(raw, 0x40_0000), raw / 0x80_0000 % 4;
      var n: byte := if opc == 2 then 8 else 4;
      g.fn == (if l then LoadPair else StorePair) && g.sz == n && Sz(g.sz) == n && g.sh == (if opc == 1 then 1 else 0)
      && g.rn == Xsp(Rn(raw)) && g.rd == (if l then Xw(Rt(raw)) else Xr(Rt(raw)))
        && g.ra == (if l then Xw(Rt2(raw)) else Xr(Rt2(raw)))
      && g.cond == (if form == 1 then MODE_POST else if form == 3 then MODE_PRE else MODE_OFF)
      && g.imm == Sx(raw / 0x8000 % 0x80, 0x40) * n % B64
  {
  }

  /** The meaning the architecture gives to an integer load or store, single or pair. */
  function ArchTransfer(raw: Raw, t: Arch, m: Mem): Result3 {
    if raw / 0x800_0000 % 8 == 5 then ArchPair(raw, t, m) else ArchSingle(raw, t, m)
  }

  /** Single-register transfers with an offset or index, and pairs, of integer registers. */
  predicate IntegerTransfer(raw: Raw) {
    var top := raw / 0x100_0000 % 64;
    top == 0x28 || top == 0x29 || ((top == 0x38 || top == 0x39) && IntegerSingle(raw))
  }

  lemma TopBits(raw: Raw)
    ensures var top := raw / 0x100_0000 % 64;
      top / 8 == raw / 0x800_0000 % 8 && top / 4 % 2 == raw / 0x400_0000 % 2 && top % 2 == raw / 0x100_0000 % 2
  {
    DivDiv(raw, 0x100_0000, 8);
    DivDiv(raw, 0x100_0000, 4);
    SixBits(raw / 0x100_0000);
  }

  lemma SixBits(x: nat)
    ensures x % 64 / 8 == x / 8 % 8 && x % 64 / 4 % 2 == x / 4 % 2 && x % 64 % 2 == x % 2
  {
    var a, b := x / 64, x % 64;
    assert x == 64 * a + b;
    DivModUnique(x, 8, 8 * a + b / 8, b % 8);
    DivModUnique(8 * a + b / 8, 8, a, b / 8);
    DivModUnique(x, 4, 16 * a + b / 4, b % 4);
    DivModUnique(16 * a + b / 4, 2, 8 * a + b / 4 / 2, b / 4 % 2);
    DivModUnique(x, 2, 32 * a + b / 2, b % 2);
  }

  lemma TransferGroups(raw: Raw, pc: Word)
    requires IntegerTransfer(raw) && DecodeLdSt(raw, pc).Some?
    ensures var top := raw / 0x100_0000 % 64;
      DecodeLdSt(raw, pc)
        == (if top == 0x28 || top == 0x29 then DecodePair(raw) else if top == 0x38 then DecodeRegForm(raw)
          else DecodeUnsignedImm(raw))
  {
    var top := raw / 0x100_0000 % 64;
    assert top - top / 4 % 2 * 4 == top;
  }

  lemma TransferBits(raw: Raw)
    requires IntegerTransfer(raw)
    ensures var top := raw / 0x100_0000 % 64;
      (raw / 0x800_0000 % 8 == 5 <==> top == 0x28 || top == 0x29) && !BitAt(raw, 0x400_0000)
      && (top == 0x38 ==> !BitAt(raw, 0x100_0000)) && (top == 0x39 ==> BitAt(raw, 0x100_0000))
  {
    TopBits(raw);
  }

  /** The integer loads and stores that the architecture allocates: sizes and extensions that exist, a register
      offset of 64 bits or extended from 32, a sign-extending pair only as a load that hints nothing. */
  predicate Allocated(raw: Raw) {
    var top, size := raw / 0x100_0000 % 64, raw / 0x4000_0000;
    if top / 8 == 5 then size != 3 && (size == 1 ==> BitAt(raw, 0x40_0000) && raw / 0x80_0000 % 4 != 0)
    else
      (size >= 2 ==> raw / 0x40_0000 % 4 != 3)
      && (top == 0x38 && BitAt(raw, 0x20_0000) ==> raw / 0x400 % 4 == 2 && BitAt(raw, 0x4000))
  }

  /** The decoder accepts exactly these. */
  lemma AllocatedIff(raw: Raw, pc: Word)
    requires IntegerTransfer(raw)
    ensures DecodeLdSt(raw, pc).Some? <==> Allocated(raw)
  {
    TransferBits(raw);
    OptionBit(raw);
    var top := raw / 0x100_0000 % 64;
    if top == 0x28 || top == 0x29 {
      assert DecodeLdSt(raw, pc) == DecodePair(raw);
    } else if top == 0x38 {
      RegFormAllocated(raw);
    } else {
      assert DecodeLdSt(raw, pc) == DecodeUnsignedImm(raw);
    }
  }

  lemma RegFormAllocated(raw: Raw)
    requires IntegerSingle(raw)
    ensures DecodeRegForm(raw).Some? <==>
      (raw / 0x4000_0000 >= 2 ==> raw / 0x40_0000 % 4 != 3)
      && (BitAt(raw, 0x20_0000) ==> raw / 0x400 % 4 == 2 && raw / 0x2000 % 8 / 2 % 2 == 1)
  {
  }

  lemma OptionBit(raw: Raw)
    ensures raw / 0x2000 % 8 / 2 % 2 == 1 <==> BitAt(raw, 0x4000)
  {
    DivDiv(raw, 0x2000, 2);
    SecondBit(raw / 0x2000);
  }

  lemma SecondBit(q: nat)
    ensures q % 8 / 2 % 2 == q / 2 % 2
  {
    var h, c := q / 8, q % 8;
    DivModUnique(q, 2, 4 * h + c / 2, c % 2);
    DivModUnique(4 * h + c / 2, 2, 2 * h + c / 2 / 2, c / 2 % 2);
  }

  /** For every accepted integer load or store, single or pair, the generic handler does to the registers a program
      sees, to memory and to pc what the architecture reads off the word: the right registers in the right places,
      the scaled or extended offset, the extension of the value, the base register moved after the access, and a
      fault that changes none. */
  lemma DecodedTransfers(raw: Raw, pc: Word, s: Regs, other: Meaning, m: Mem)
    requires s.r[ZR] == 0 && IntegerTransfer(raw) && DecodeLdSt(raw, pc).Some?
    ensures Seen(RunScript(Handle(Generic(DecodeLdSt(raw, pc).value), s, other), s, m)) == ArchTransfer(raw, View(s), m)
  {
    TransferGroups(raw, pc);
    TransferBits(raw);
    var top := raw / 0x100_0000 % 64;
    if top == 0x28 || top == 0x29 {
      PairSeen(raw, s, other, m);
    } else if top == 0x38 {
      RegFormSeen(raw, s, other, m);
    } else {
      UnsignedImmSeen(raw, s, other, m);
    }
  }

  /** And so does the handler actually picked, specialised or not, fault or no fault, as far as registers, bytes and
      the stop go; but a specialised pair load that faults may have assigned its first register. */
  lemma PickedTransfers(raw: Raw, pc: Word, s: Regs, other: Meaning, m: Mem)
    requires s.r[ZR] == 0 && IntegerTransfer(raw) && DecodeLdSt(raw, pc).Some?
    ensures var i := DecodeLdSt(raw, pc).value;
      var (r, m', e) := RunScript(Handle(i, s, other), s, m);
      var (t, m2, e2) := ArchTransfer(raw, View(s), m);
      e == e2 && m'.flat == m2.flat
      && (View(r) == t || (i.fn == Ldp64Off && e.Some? && t == View(s) && r == SetR(s, i.rd, r.r[i.rd])))
  {
    DecodedRefines(raw, pc, s, other, m);
    DecodedTransfers(raw, pc, s, other, m);
  }
}
