/** The load and store handlers, as scripts of memory accesses. */
module LoadStore {
  import opened Words
  import opened Instructions
  import opened Lanes
  import opened Machine

  // Addressing modes and load extensions, as the decoder stores them.
  const MODE_OFF := 0
  const MODE_PRE := 1
  const MODE_POST := 2
  const MODE_REG := 3
  const EXT_SIGN := 1
  const EXT_SIGN32 := 2
  const SP := 32
  const DCZVA_BYTES := 64

  function Add(a: Word, b: nat): Word {
    (a + b) % B64
  }

  function Sext(v: nat, p: nat): Word
    requires p == 0x80 || p == 0x8000 || p == 0x8000_0000 || p == 0x8000_0000_0000_0000
  {
    var x := v % (2 * p);
    if x < p then x else x + B64 - 2 * p
  }

  /** Sign extension of an n-byte value to 64 bits. */
  function SextN(v: nat, n: Size): Word {
    if n == 1 then Sext(v, 0x80) else if n == 2 then Sext(v, 0x8000) else if n == 4 then Sext(v, 0x8000_0000)
    else Sext(v, 0x8000_0000_0000_0000)
  }

  /** The extended-register operand. */
  function Extend(v: Word, option: byte): Word {
    var o := option % 8;
    if o == 0 then v % 0x100 else if o == 1 then v % 0x1_0000 else if o == 2 then v % B32
    else if o == 4 then Sext(v, 0x80) else if o == 5 then Sext(v, 0x8000) else if o == 6 then Sext(v, 0x8000_0000)
    else v
  }

  function Shl(v: Word, k: nat): Word {
    v * Pow2(k) % B64
  }

  /** The access size a size operand selects: anything unlisted is 8 bytes. */
  function Sz(sz: byte): Size {
    if sz == 1 || sz == 2 || sz == 4 then sz else 8
  }

  function Low(v: Word, n: Size): Word {
    Pow256Words();
    v % Pow256(n)
  }

  function At(l: seq<Word>, k: nat): Word {
    if k < |l| then l[k] else 0
  }

  function SetR(s: Regs, i: byte, v: Word): Regs {
    s.(r := s.r[i := v])
  }

  function SetV(s: Regs, i: nat, v: Vec): Regs {
    s.(v := s.v[i % 32 := v])
  }

  function V(s: Regs, i: nat): Vec {
    s.v[i % 32]
  }

  function Advance(s: Regs): Regs {
    s.(pc := (s.pc + 4) % B64)
  }

  // ---- addressing ------------------------------------------------------------------

  function AddrOff(i: Inst, s: Regs): Word {
    Add(s.r[i.rn], i.imm)
  }

  function AddrFor(i: Inst, s: Regs): Word {
    if i.cond == MODE_POST then s.r[i.rn] else AddrOff(i, s)
  }

  function AddrReg(i: Inst, s: Regs): Word {
    Add(s.r[i.rn], Shl(Extend(s.r[i.rm], i.ra), i.amt))
  }

  /** The registers with the base moved, for the two modes that move it. */
  function Writeback(i: Inst, s: Regs, addr: Word): Regs {
    if i.cond == MODE_PRE then SetR(s, i.rn, addr)
    else if i.cond == MODE_POST then SetR(s, i.rn, Add(addr, i.imm))
    else s
  }

  // ---- integer loads and stores --------------------------------------------------------

  function LoadValue(i: Inst, v: Word): Word {
    if i.sh == EXT_SIGN then SextN(v, Sz(i.sz))
    else if i.sh == EXT_SIGN32 then SextN(v, Sz(i.sz)) % B32
    else v
  }

  function LoadScript(i: Inst, s: Regs, addr: Word, wb: bool): Script {
    Script([LoadN(addr, Sz(i.sz))],
      l => Next(LoadCommit(i, s, addr, wb, At(l, 0))), _ => s)
  }

  function LoadCommit(i: Inst, s: Regs, addr: Word, wb: bool, v: Word): Regs {
    var s' := SetR(s, i.rd, LoadValue(i, v));
    Advance(if wb then Writeback(i, s', addr) else s')
  }

  function StoreScript(i: Inst, s: Regs, addr: Word, wb: bool): Script {
    Script([StoreN(addr, Sz(i.sz), Low(s.r[i.rd], Sz(i.sz)))],
      _ => Next(Advance(if wb then Writeback(i, s, addr) else s)),
      _ => s)
  }

  function LoadPairScript(i: Inst, s: Regs): Script {
    var addr, n := AddrFor(i, s), Sz(i.sz);
    Script([CheckRead(addr, 2 * n), LoadN(addr, n), LoadN(Add(addr, n), n)],
      l => Next(LoadPairCommit(i, s, At(l, 0), At(l, 1))), _ => s)
  }

  function LoadPairCommit(i: Inst, s: Regs, v1: Word, v2: Word): Regs {
    var n := Sz(i.sz);
    var w1, w2 := if i.sh == EXT_SIGN then SextN(v1, n) else v1, if i.sh == EXT_SIGN then SextN(v2, n) else v2;
    Advance(Writeback(i, SetR(SetR(s, i.rd, w1), i.ra, w2), AddrFor(i, s)))
  }

  function StorePairScript(i: Inst, s: Regs): Script {
    var addr, n := AddrFor(i, s), Sz(i.sz);
    Script([CheckWrite(addr, 2 * n), StoreN(addr, n, Low(s.r[i.rd], n)), StoreN(Add(addr, n), n, Low(s.r[i.ra], n))],
      _ => Next(StorePairCommit(i, s)), _ => s)
  }

  function StorePairCommit(i: Inst, s: Regs): Regs {
    Advance(Writeback(i, s, AddrFor(i, s)))
  }

  // ---- SIMD&FP loads and stores ----------------------------------------------------------

  /** The unwritten high lanes of a destination become zero. */
  function VLoadScript(i: Inst, s: Regs, addr: Word, wb: bool): Script {
    if i.sz == 16 then
      Script([CheckRead(addr, 16), LoadN(addr, 8), LoadN(Add(addr, 8), 8)],
        l => Next(VLoadCommit(i, s, addr, wb, Vec(At(l, 0), At(l, 1)))), _ => s)
    else
      Script([LoadN(addr, Sz(i.sz))], l => Next(VLoadCommit(i, s, addr, wb, Vec(At(l, 0), 0))), _ => s)
  }

  function VLoadCommit(i: Inst, s: Regs, addr: Word, wb: bool, v: Vec): Regs {
    Advance(if wb then Writeback(i, SetV(s, i.rd, v), addr) else SetV(s, i.rd, v))
  }

  function VStoreScript(i: Inst, s: Regs, addr: Word, wb: bool): Script {
    var done := Next(Advance(if wb then Writeback(i, s, addr) else s));
    if i.sz == 16 then
      Script([CheckWrite(addr, 16), StoreN(addr, 8, V(s, i.rd).lo), StoreN(Add(addr, 8), 8, V(s, i.rd).hi)],
        _ => done, _ => s)
    else
      Script([StoreN(addr, Sz(i.sz), Low(V(s, i.rd).lo, Sz(i.sz)))], _ => done, _ => s)
  }

  /** The first register is assigned before the loads of the second, so a fault there leaves it changed. */
  function VLoadPairScript(i: Inst, s: Regs): Script {
    var addr := AddrFor(i, s);
    if i.sz == 16 then
      Script([CheckRead(addr, 32), LoadN(addr, 8), LoadN(Add(addr, 8), 8), LoadN(Add(addr, 16), 8),
        LoadN(Add(addr, 24), 8)],
        l => Next(Advance(Writeback(i, SetV(SetV(s, i.rd, Vec(At(l, 0), At(l, 1))), i.ra, Vec(At(l, 2), At(l, 3))),
          addr))),
        l => if |l| >= 2 then SetV(s, i.rd, Vec(At(l, 0), At(l, 1))) else s)
    else
      var n := Sz(i.sz);
      Script([CheckRead(addr, 2 * n), LoadN(addr, n), LoadN(Add(addr, n), n)],
        l => Next(Advance(Writeback(i, SetV(SetV(s, i.rd, Vec(At(l, 0), 0)), i.ra, Vec(At(l, 1), 0)), addr))),
        l => if |l| >= 1 then SetV(s, i.rd, Vec(At(l, 0), 0)) else s)
  }

  function VStorePairScript(i: Inst, s: Regs): Script {
    var addr := AddrFor(i, s);
    var a, b := V(s, i.rd), V(s, i.ra);
    var done := Next(Advance(Writeback(i, s, addr)));
    if i.sz == 16 then
      Script([CheckWrite(addr, 32), StoreN(addr, 8, a.lo), StoreN(Add(addr, 8), 8, a.hi),
              StoreN(Add(addr, 16), 8, b.lo), StoreN(Add(addr, 24), 8, b.hi)], _ => done, _ => s)
    else
      var n := Sz(i.sz);
      Script([CheckWrite(addr, 2 * n), StoreN(addr, n, Low(a.lo, n)), StoreN(Add(addr, n), n, Low(b.lo, n))],
        _ => done, _ => s)
  }

  // ---- exclusives -----------------------------------------------------------------------

  function LdxrScript(i: Inst, s: Regs): Script {
    var addr, n := s.r[i.rn], Sz(i.sz);
    Script([LoadN(addr, n)],
      l => Next(LdxrCommit(i, s, At(l, 0))), _ => s)
  }

  function LdxrCommit(i: Inst, s: Regs, v: Word): Regs {
    Advance(SetR(s, i.rd, v).(exclAddr := s.r[i.rn], exclVal := v, exclSize := i.sz, exclValid := true))
  }

  function LdxpScript(i: Inst, s: Regs): Script {
    var addr, n := s.r[i.rn], Sz(i.sz);
    Script([CheckRead(addr, 2 * n), LoadN(addr, n), LoadN(Add(addr, n), n)],
      l => Next(LdxpCommit(i, s, At(l, 0), At(l, 1))), _ => s)
  }

  function LdxpCommit(i: Inst, s: Regs, v1: Word, v2: Word): Regs {
    Advance(SetR(SetR(s, i.rd, v1), i.rm, v2).(exclAddr := s.r[i.rn], exclVal := v1, exclVal2 := v2,
      exclSize := 2 * i.sz,
                                               exclValid := true))
  }

  predicate ExclusiveOk(s: Regs, addr: Word, size: nat) {
    s.exclValid && s.exclAddr == addr && s.exclSize == size
  }

  /** A store-exclusive that fails accesses no memory; either way the monitor is cleared first. */
  function StxrScript(i: Inst, s: Regs): Script {
    var addr, n, s1 := s.r[i.rn], Sz(i.sz), s.(exclValid := false);
    if ExclusiveOk(s, addr, i.sz) then
      Script([StoreN(addr, n, Low(s.r[i.rd], n))], _ => Next(Advance(SetR(s1, i.ra, 0))), _ => s1)
    else
      Script([], _ => Next(Advance(SetR(s1, i.ra, 1))), _ => s1)
  }

  function StxpScript(i: Inst, s: Regs): Script {
    var addr, n, s1 := s.r[i.rn], Sz(i.sz), s.(exclValid := false);
    if ExclusiveOk(s, addr, 2 * i.sz) then
      Script([CheckWrite(addr, 2 * n), StoreN(addr, n, Low(s.r[i.rd], n)), StoreN(Add(addr, n), n, Low(s.r[i.rm], n))],
        _ => Next(Advance(SetR(s1, i.ra, 0))), _ => s1)
    else
      Script([], _ => Next(Advance(SetR(s1, i.ra, 1))), _ => s1)
  }

  // ---- DC ZVA ---------------------------------------------------------------------------

  function DcZvaAddr(i: Inst, s: Regs): Word {
    s.r[i.rn] - s.r[i.rn] % DCZVA_BYTES
  }

  /** Stores of n bytes each, at consecutive addresses. */
  function StoreRun(base: Word, n: Size, vals: seq<Word>): (accs: seq<Acc>)
    ensures |accs| == |vals|
    ensures forall j :: 0 <= j < |accs| ==> accs[j] == StoreN(Add(base, Times(j, n)), n, vals[j])
  {
    seq(|vals|, j requires 0 <= j < |vals| => StoreN(Add(base, Times(j, n)), n, vals[j]))
  }

  function LoadRun(base: Word, n: Size, count: nat): (accs: seq<Acc>)
    ensures |accs| == count
    ensures forall j :: 0 <= j < |accs| ==> accs[j] == LoadN(Add(base, Times(j, n)), n)
  {
    seq(count, j requires 0 <= j < count => LoadN(Add(base, Times(j, n)), n))
  }

  function DcZvaScript(i: Inst, s: Regs): Script {
    var a := DcZvaAddr(i, s);
    Script([CheckWrite(a, DCZVA_BYTES)] + StoreRun(a, 8, seq<Word>(8, _ => 0)), _ => Next(Advance(s)), _ => s)
  }

  // ---- structure loads and stores ----------------------------------------------------------

  /** Shape of a load/store multiple: element size, lanes per register, registers, interleaved or not. */
  datatype Shape = Shape(e: nat, lanes: nat, regs: nat, contiguous: bool)

  function ShapeOf(i: Inst): Shape {
    var e := Sz(if i.sz == 0 then 1 else if i.sz == 1 then 2 else if i.sz == 2 then 4 else 8);
    Shape(e, i.amt / e, i.sh, i.ra == 1)
  }

  predicate GoodShape(p: Shape) {
    AccessSize(p.e) && 0 < p.lanes && Offset(p.e, p.lanes) <= 16 && 1 <= p.regs <= 4
  }

  /** Elements transferred. */
  function Count(p: Shape): nat
    requires GoodShape(p)
  {
    Times(p.regs, p.lanes)
  }

  /** The register and lane of the j-th element transferred. */
  function RegOf(p: Shape, j: nat): nat
    requires GoodShape(p)
  {
    if p.contiguous then j / p.lanes else j % p.regs
  }

  function LaneOf(p: Shape, j: nat): nat
    requires GoodShape(p)
  {
    if p.contiguous then j % p.lanes else j / p.regs
  }

  /** The elements a structure store writes, in order. */
  function Elements(p: Shape, s: Regs, rd: nat): (vals: seq<Word>)
    requires GoodShape(p)
    ensures |vals| == Count(p)
  {
    seq(Count(p), j requires 0 <= j < Count(p) => Element(p, s, rd, j))
  }

  function Element(p: Shape, s: Regs, rd: nat, j: nat): Word
    requires GoodShape(p)
  {
    Pow256Words();
    Pow256Mono(p.e, 8);
    GetLane(V(s, rd + RegOf(p, j)), p.e, LaneOf(p, j))
  }

  /** The registers a structure load has gathered after the first n elements. */
  function Gather(p: Shape, l: seq<Word>, n: nat): (out: seq<Vec>)
    requires GoodShape(p)
    ensures |out| == 4
  {
    if n == 0 then [Vec(0, 0), Vec(0, 0), Vec(0, 0), Vec(0, 0)]
    else
      var out, j := Gather(p, l, n - 1), n - 1;
      var r := RegOf(p, j) % 4;
      out[r := SetLane(out[r], p.e, LaneOf(p, j), At(l, j))]
  }

  function PutVecs(s: Regs, rd: nat, out: seq<Vec>, n: nat): Regs
    requires n <= |out|
  {
    if n == 0 then s else SetV(PutVecs(s, rd, out, n - 1), rd + n - 1, out[n - 1])
  }

  function SimdAdvance(i: Inst, s: Regs, base: Word): Regs {
    if i.cond == MODE_POST then SetR(s, i.rn, Add(base, i.imm))
    else if i.cond == MODE_REG then SetR(s, i.rn, Add(base, s.r[i.rm]))
    else s
  }

  /** Bytes transferred: registers times bytes per register, as the decoder encodes them. */
  function Total(i: Inst): nat {
    Times(i.sh, i.amt)
  }

  predicate GoodSimd(i: Inst) {
    i.sz <= 3 && (i.amt == 8 || i.amt == 16) && 1 <= i.sh <= 4
  }

  lemma GoodSimdShape(i: Inst)
    requires GoodSimd(i)
    ensures GoodShape(ShapeOf(i)) && 0 < Total(i) <= 64
    ensures Offset(ShapeOf(i).e, ShapeOf(i).lanes) == i.amt && Total(i) == Times(Count(ShapeOf(i)), ShapeOf(i).e)
  {
    var p := ShapeOf(i);
    TimesMono(1, i.sh, i.amt);
    TimesMono(i.sh, 4, i.amt);
    TimesIs(1, i.amt);
    TimesIs(4, i.amt);
    ShapeTotal(p.e, p.lanes, i.amt, i.sh);
  }

  lemma ShapeTotal(e: Size, lanes: nat, amt: nat, regs: nat)
    requires Offset(e, lanes) == amt
    ensures Times(regs, amt) == Times(Times(regs, lanes), e)
  {
    assert AccessSize(e);
    assert amt == lanes * e;
    TimesIs(regs, amt);
    TimesIs(regs, lanes);
    TimesIs(Times(regs, lanes), e);
    Assoc(regs, lanes, e);
  }

  /** A structure load from the values its accesses returned. */
  function SimdLoaded(i: Inst, s: Regs, l: seq<Word>): Regs
    requires GoodSimd(i)
  {
    GoodSimdShape(i);
    var p := ShapeOf(i);
    Advance(SimdAdvance(i, PutVecs(s, i.rd, Gather(p, l, Count(p)), p.regs), s.r[i.rn]))
  }

  function SimdStored(i: Inst, s: Regs): Regs {
    Advance(SimdAdvance(i, s, s.r[i.rn]))
  }

  function SimdLoadScript(i: Inst, s: Regs): Script
    requires GoodSimd(i)
  {
    GoodSimdShape(i);
    Script([CheckRead(s.r[i.rn], Total(i))] + LoadRun(s.r[i.rn], ShapeOf(i).e, Count(ShapeOf(i))),
      l => Next(SimdLoaded(i, s, l)), _ => s)
  }

  function SimdStoreScript(i: Inst, s: Regs): Script
    requires GoodSimd(i)
  {
    GoodSimdShape(i);
    Script([CheckWrite(s.r[i.rn], Total(i))] + StoreRun(s.r[i.rn], ShapeOf(i).e, Elements(ShapeOf(i), s, i.rd)),
      _ => Next(SimdStored(i, s)), _ => s)
  }

  // ---- specialised handlers --------------------------------------------------------------

  /** A specialised zero-extending load. */
  function HotLoad(i: Inst, s: Regs, a: Word, n: Size): Script {
    Script([LoadN(a, n)], l => Next(Advance(SetR(s, i.rd, At(l, 0)))), _ => s)
  }

  /** A specialised store: memory takes the low n bytes, but a write hook is handed the whole register. */
  function HotStore(i: Inst, s: Regs, a: Word, n: Size): Script {
    Script([StoreN(a, n, s.r[i.rd])], _ => Next(Advance(s)), _ => s)
  }

  /** As the specialised 64-bit pair load: the first register is assigned before the second load. */
  function Ldp64Script(i: Inst, s: Regs): Script {
    var a := AddrOff(i, s);
    Script([CheckRead(a, 16), LoadN(a, 8), LoadN(Add(a, 8), 8)],
      l => Next(Ldp64Commit(i, s, At(l, 0), At(l, 1))),
      l => if |l| >= 1 then SetR(s, i.rd, At(l, 0)) else s)
  }

  function Ldp64Commit(i: Inst, s: Regs, v1: Word, v2: Word): Regs {
    Advance(SetR(SetR(s, i.rd, v1), i.ra, v2))
  }

  function Stp64Script(i: Inst, s: Regs): Script {
    var a := AddrOff(i, s);
    Script([CheckWrite(a, 16), StoreN(a, 8, s.r[i.rd]), StoreN(Add(a, 8), 8, s.r[i.ra])], _ => Next(Advance(s)), _ => s)
  }
}
