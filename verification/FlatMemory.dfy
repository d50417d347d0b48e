/** What guest memory means: a flat map from page numbers to protection and bytes, plus hooks that observe accesses. */
module FlatMemory {
  import opened Words

  const PAGE := 4096

  type PageBytes = s: seq<byte> | |s| == PAGE witness seq<byte>(PAGE, _ => 0)

  /** What a page reads as until it is first written. */
  function Zeros(): (z: PageBytes)
    ensures forall o :: 0 <= o < PAGE ==> z[o] == 0
  {
    seq<byte>(PAGE, _ => 0)
  }

  datatype PageView = PageView(prot: nat, bytes: PageBytes)
  type Flat = map<nat, PageView>

  datatype Access = Reading | Writing | Fetching

  // Fault kinds, numbered as the invalid-access callbacks see them.
  const READ_UNMAPPED := 19
  const WRITE_UNMAPPED := 20
  const FETCH_UNMAPPED := 21
  const WRITE_PROT := 22
  const READ_PROT := 23
  const FETCH_PROT := 24

  datatype Fault = Fault(kind: nat, addr: nat, size: nat)
  datatype Result<+T> = Ok(value: T) | Err(fault: Fault)

  predicate Allows(prot: nat, acc: Access) {
    match acc
    case Reading => prot % 2 == 1
    case Writing => prot / 2 % 2 == 1
    case Fetching => prot / 4 % 2 == 1
  }

  function UnmappedKind(acc: Access): nat {
    match acc
    case Reading => READ_UNMAPPED
    case Writing => WRITE_UNMAPPED
    case Fetching => FETCH_UNMAPPED
  }

  function ProtKind(acc: Access): nat {
    match acc
    case Reading => READ_PROT
    case Writing => WRITE_PROT
    case Fetching => FETCH_PROT
  }

  /** The fault of an access to the single page holding addr, if any. */
  function PageFault(f: Flat, acc: Access, addr: nat, size: nat): Option<Fault> {
    if addr / PAGE !in f then
      Some(Fault(UnmappedKind(acc), addr, size))
    else if !Allows(f[addr / PAGE].prot, acc) then
      Some(Fault(ProtKind(acc), addr, size))
    else None
  }

  /** The first address of the page after addr's, in 64-bit arithmetic. */
  function NextPage(addr: nat): nat {
    (addr / PAGE + 1) * PAGE % B64
  }

  predicate InPage(addr: nat, size: nat) {
    addr % PAGE + size <= PAGE
  }

  /** The fault of a load or store of size bytes: its first page is tried before its second. */
  function AccessFault(f: Flat, acc: Access, addr: nat, size: nat): Option<Fault> {
    if PageFault(f, acc, addr, size).Some? || InPage(addr, size) then PageFault(f, acc, addr, size)
    else PageFault(f, acc, NextPage(addr), size)
  }

  function ByteAt(f: Flat, a: nat): byte {
    if a / PAGE in f then f[a / PAGE].bytes[a % PAGE] else 0
  }

  /** n bytes from address a. */
  function Peek(f: Flat, a: nat, n: nat): (bs: seq<byte>)
    ensures |bs| == n
  {
    seq<byte>(n, i requires 0 <= i < n => ByteAt(f, a + i))
  }

  /** The page v after the bytes bs have been stored at address a. */
  function PokePage(p: PageView, v: nat, a: nat, bs: seq<byte>): PageView {
    PageView(p.prot, seq(PAGE, o requires 0 <= o < PAGE =>
      if a <= v * PAGE + o < a + |bs| then bs[v * PAGE + o - a] else p.bytes[o]))
  }

  function Poke(f: Flat, a: nat, bs: seq<byte>): Flat {
    map v | v in f :: PokePage(f[v], v, a, bs)
  }

  // ---- hooks --------------------------------------------------------------

  /** Observes accesses that start in [begin, end], or everywhere when begin > end. */
  datatype Hook = Hook(id: nat, begin: nat, end: nat)
  datatype Event = Event(hook: nat, addr: nat, size: nat, value: nat)

  predicate Watches(h: Hook, addr: nat) {
    h.begin > h.end || h.begin <= addr <= h.end
  }

  /** The calls one access makes: every watching hook once, in registration order. */
  function Calls(hs: seq<Hook>, addr: nat, size: nat, value: nat): seq<Event> {
    if |hs| == 0 then []
    else Calls(hs[..|hs| - 1], addr, size, value)
         + if Watches(hs[|hs| - 1], addr) then [Event(hs[|hs| - 1].id, addr, size, value)] else []
  }

  // ---- the abstract machine -------------------------------------------------

  datatype Mem = Mem(flat: Flat, rhooks: seq<Hook>, whooks: seq<Hook>, log: seq<Event>)

  function Load(m: Mem, addr: nat, size: nat): (r: (Mem, Result<nat>))
    ensures r.1.Ok? && size <= 8 ==> r.1.value < B64
  {
    Pow256Words();
    assert size <= 8 ==> Pow256(size) <= B64 by { if size <= 8 { Pow256Mono(size, 8); } }
    match AccessFault(m.flat, Reading, addr, size)
    case Some(e) => (m, Err(e))
    case None => (m.(log := m.log + Calls(m.rhooks, addr, size, 0)), Ok(FromLE(Peek(m.flat, addr, size))))
  }

  /** A store. Hooks see the value as the caller passed it. */
  function Store(m: Mem, addr: nat, size: nat, v: nat): (Mem, Option<Fault>) {
    match AccessFault(m.flat, Writing, addr, size)
    case Some(e) => (m, Some(e))
    case None =>
      (m.(flat := Poke(m.flat, addr, ToLE(v, size)), log := m.log + Calls(m.whooks, addr, size, v)), None)
  }

  /** The check made before a store in several parts: its first and its last page. */
  function WriteCheck(f: Flat, addr: nat, size: nat): Option<Fault>
    requires size > 0
  {
    var last := (addr + size - 1) % B64;
    if PageFault(f, Writing, addr, size).Some? || last / PAGE == addr / PAGE then PageFault(f, Writing, addr, size)
    else PageFault(f, Writing, last, size)
  }

  // ---- mapping -----------------------------------------------------------------

  const ADDRESS_SPACE := 0x1_0000_0000_0000  // 2^48

  /** A page-aligned, non-empty range inside the address space. */
  predicate GoodRange(addr: nat, size: nat) {
    size > 0 && addr % PAGE == 0 && size % PAGE == 0 && addr + size <= ADDRESS_SPACE
  }

  predicate Unmapped(f: Flat, lo: nat, hi: nat) {
    forall v :: lo <= v < hi ==> v !in f
  }

  predicate AllMapped(f: Flat, lo: nat, hi: nat) {
    forall v :: lo <= v < hi ==> v in f
  }

  /** Pages lo..hi become zero-filled pages with protection prot. */
  function MapPages(f: Flat, lo: nat, hi: nat, prot: nat): Flat
    decreases hi
  {
    if hi <= lo then f else MapPages(f, lo, hi - 1, prot)[hi - 1 := PageView(prot, Zeros())]
  }

  function UnmapPages(f: Flat, lo: nat, hi: nat): Flat
    decreases hi
  {
    if hi <= lo then f else UnmapPages(f, lo, hi - 1) - {hi - 1}
  }

  function SetProt(f: Flat, v: nat, prot: nat): Flat {
    if v in f then f[v := f[v].(prot := prot)] else f
  }

  function ProtectPages(f: Flat, lo: nat, hi: nat, prot: nat): Flat
    decreases hi
  {
    if hi <= lo then f else SetProt(ProtectPages(f, lo, hi - 1, prot), hi - 1, prot)
  }

  /** Mapping, unmapping and protecting act page by page on exactly the pages lo..hi. */
  lemma {:induction false} RangeOps(f: Flat, lo: nat, hi: nat, prot: nat)
    ensures forall v :: v in MapPages(f, lo, hi, prot) <==> v in f || lo <= v < hi
    ensures forall v :: v in MapPages(f, lo, hi, prot) ==>
              MapPages(f, lo, hi, prot)[v] == if lo <= v < hi then PageView(prot, Zeros()) else f[v]
    ensures forall v :: v in UnmapPages(f, lo, hi) <==> v in f && !(lo <= v < hi)
    ensures forall v :: v in UnmapPages(f, lo, hi) ==> UnmapPages(f, lo, hi)[v] == f[v]
    ensures ProtectPages(f, lo, hi, prot).Keys == f.Keys
    ensures forall v :: v in f ==>
              ProtectPages(f, lo, hi, prot)[v] == if lo <= v < hi then f[v].(prot := prot) else f[v]
    decreases hi
  {
    if hi > lo {
      RangeOps(f, lo, hi - 1, prot);
    }
  }

  /** hs without the hook registered as id. */
  function Without(hs: seq<Hook>, id: nat): seq<Hook> {
    if |hs| == 0 then []
    else Without(hs[..|hs| - 1], id) + if hs[|hs| - 1].id == id then [] else [hs[|hs| - 1]]
  }

  // ---- laws of the flat map ---------------------------------------------------

  lemma PokeByte(f: Flat, a: nat, bs: seq<byte>, x: nat)
    ensures x / PAGE in f ==>
      ByteAt(Poke(f, a, bs), x) == if a <= x < a + |bs| then bs[x - a] else ByteAt(f, x)
    ensures Poke(f, a, bs).Keys == f.Keys
  {
    assert x / PAGE * PAGE + x % PAGE == x;
  }

  predicate HasByte(f: Flat, x: nat) {
    x / PAGE in f
  }

  predicate Mapped(f: Flat, a: nat, n: nat) {
    forall x :: a <= x < a + n ==> HasByte(f, x)
  }

  /** Reading back what was stored. */
  lemma PeekPoke(f: Flat, a: nat, bs: seq<byte>)
    requires Mapped(f, a, |bs|)
    ensures Peek(Poke(f, a, bs), a, |bs|) == bs
  {
    forall i | 0 <= i < |bs|
      ensures Peek(Poke(f, a, bs), a, |bs|)[i] == bs[i]
    {
      assert HasByte(f, a + i);
      PokeByte(f, a, bs, a + i);
    }
  }

  lemma PokePoke(f: Flat, a: nat, bs: seq<byte>, cs: seq<byte>)
    ensures Poke(Poke(f, a, bs), a + |bs|, cs) == Poke(f, a, bs + cs)
  {
    var l, r := Poke(Poke(f, a, bs), a + |bs|, cs), Poke(f, a, bs + cs);
    forall v | v in f ensures l[v] == r[v] {
      assert l[v].bytes == r[v].bytes;
    }
  }

  /** Storing bs piece by piece. */
  lemma PokeExtend(f: Flat, a: nat, bs: seq<byte>, k: nat, n: nat)
    requires k + n <= |bs|
    ensures Poke(Poke(f, a, bs[..k]), a + k, bs[k..k + n]) == Poke(f, a, bs[..k + n])
    ensures k + n == |bs| ==> Poke(f, a, bs[..k + n]) == Poke(f, a, bs)
  {
    PokePoke(f, a, bs[..k], bs[k..k + n]);
    assert bs[..k] + bs[k..k + n] == bs[..k + n];
    assert k + n == |bs| ==> bs[..k + n] == bs;
  }

  lemma PokeNothing(f: Flat, a: nat)
    ensures Poke(f, a, []) == f
  {
    forall v | v in f ensures Poke(f, a, [])[v] == f[v] {
      assert Poke(f, a, [])[v].bytes == f[v].bytes;
    }
  }

  lemma PeekSplit(f: Flat, a: nat, m: nat, n: nat)
    ensures Peek(f, a, m + n) == Peek(f, a, m) + Peek(f, a + m, n)
  {
  }
}
