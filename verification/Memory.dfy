/** Guest memory: pages behind a radix table, fronted by two TLBs and two code caches. */
module GuestMemory {
  import opened Words
  import opened Instructions
  import opened FlatMemory
  import opened PageTables

  const TLB_SIZE := 256
  const CTLB_SIZE := 64
  const NO_VPN: nat := B64 - 1

  // ---- hooks and pages ------------------------------------------------------

  /** The ranges of hs reach into page vpn. */
  predicate HooksCover(hs: seq<Hook>, vpn: nat) {
    exists k :: 0 <= k < |hs| && CoversPage(hs[k], vpn)
  }

  /** The loop that decides HooksCover. */
  method HooksCoverPage(hs: seq<Hook>, vpn: nat) returns (b: bool)
    ensures b == HooksCover(hs, vpn)
  {
    for i := 0 to |hs|
      invariant forall k :: 0 <= k < i ==> !CoversPage(hs[k], vpn)
    {
      if CoversPage(hs[i], vpn) {
        return true;
      }
    }
    return false;
  }

  predicate CoversPage(h: Hook, vpn: nat) {
    h.begin > h.end || (h.begin <= vpn * PAGE + PAGE - 1 && h.end >= vpn * PAGE)
  }

  /** An access on a page no hook covers calls no hook. */
  lemma {:induction false} NoCalls(hs: seq<Hook>, addr: nat, size: nat, value: nat)
    requires !HooksCover(hs, addr / PAGE)
    ensures Calls(hs, addr, size, value) == []
  {
    if |hs| > 0 {
      var h := hs[|hs| - 1];
      assert !CoversPage(h, addr / PAGE);
      var front := hs[..|hs| - 1];
      forall k | 0 <= k < |front| ensures !CoversPage(front[k], addr / PAGE) {
        assert !CoversPage(hs[k], addr / PAGE);
      }
      NoCalls(front, addr, size, value);
    }
  }

  /** The instruction word in slot k of a page. */
  function WordIn(bytes: PageBytes, k: nat): nat
    requires k < INSTS_PER_PAGE
  {
    FromLE(bytes[4 * k..4 * k + 4])
  }

  // ---- the objects behind the handles ------------------------------------------

  /** A guest page; data is NIL until the first write, code is NIL until the page is executed. */
  datatype Page = Page(data: Ptr, prot: nat, code: Ptr)
  /** The lazily decoded instructions of the page pg; None is "not decoded yet". */
  datatype CodePage = CodePage(pg: Ptr, insts: seq<Option<Inst>>)
  datatype TlbEntry = TlbEntry(vpn: nat, data: Ptr)
  datatype CodeEntry = CodeEntry(vpn: nat, code: Ptr)

  /** Every object guest memory owns, by handle, and the next handle to give out. */
  datatype Objects = Objects(pages: map<Ptr, Page>, buffers: map<Ptr, PageBytes>, codes: map<Ptr, CodePage>, next: Ptr)
  datatype Caches = Caches(rtlb: seq<TlbEntry>, wtlb: seq<TlbEntry>, ctlb: seq<CodeEntry>,
                           fetchVPN: nat, fetchCode: Ptr)
  type Table = map<nat, Ptr>

  /** The handle of the shared zero page. */
  const ZERO_PAGE: Ptr := 1

  /** Every decoded slot holds the decoding of the bytes the page holds now. */
  ghost predicate DecodedFrom(insts: seq<Option<Inst>>, bytes: PageBytes, v: nat, decode: (nat, nat) -> Inst) {
    |insts| == INSTS_PER_PAGE
    && forall k :: 0 <= k < INSTS_PER_PAGE ==> SlotOk(insts[k], WordIn(bytes, k), v * PAGE + 4 * k, decode)
  }

  ghost predicate SlotOk(slot: Option<Inst>, word: nat, pc: nat, decode: (nat, nat) -> Inst) {
    slot.Some? ==> slot.value == decode(word, pc)
  }

  /** Page v's objects exist, belong to no other page, hold what the flat map says, and its decoded code is current. */
  ghost predicate PageOk(v: nat, t: Table, o: Objects, view: PageView, home: map<Ptr, nat>, decode: (nat, nat) -> Inst)
    requires v in t
  {
    var p := t[v];
    && v < VPN_LIMIT && p in o.pages && p in home && home[p] == v
    && var pg := o.pages[p];
    && pg.prot == view.prot < 8
    && (pg.data == NIL ==> view.bytes == Zeros())
    && (pg.data != NIL ==> pg.data != ZERO_PAGE && pg.data in home && home[pg.data] == v
                           && pg.data in o.buffers && o.buffers[pg.data] == view.bytes)
    && (pg.code != NIL ==> pg.code in home && home[pg.code] == v
                           && pg.code in o.codes && o.codes[pg.code].pg == p
                           && DecodedFrom(o.codes[pg.code].insts, view.bytes, v, decode))
  }

  ghost predicate PagesOk(t: Table, o: Objects, flat: Flat, home: map<Ptr, nat>, decode: (nat, nat) -> Inst) {
    && flat.Keys == t.Keys
    && ZERO_PAGE in o.buffers && o.buffers[ZERO_PAGE] == Zeros()
    && (forall v :: v in t ==> PageOk(v, t, o, flat[v], home, decode))
    && o.next > ZERO_PAGE && (forall h :: h in home ==> h < o.next)
  }

  /** How much of the bytes left fits on the page of a. */
  function ChunkAt(a: nat, left: nat): (n: nat)
    requires left > 0
    ensures 0 < n <= left && InPage(a, n)
  {
    if PAGE - a % PAGE < left then PAGE - a % PAGE else left
  }

  lemma PokeChunk(flat: Flat, addr: nat, src: seq<byte>, i: nat, n: nat)
    requires 0 < n && i + n <= |src| && Mapped(flat, addr, |src|)
    ensures var before := Poke(flat, addr, src[..i]);
      HasByte(before, addr + i) && Poke(before, addr + i, src[i..i + n]) == Poke(flat, addr, src[..i + n])
  {
    assert HasByte(flat, addr + i);
    PokeExtend(flat, addr, src, i, n);
  }

  /** Storing one more byte. */
  lemma PokeOneMore(flat: Flat, addr: nat, bs: seq<byte>, k: nat)
    requires k < |bs| && addr + |bs| <= B64 && Mapped(flat, addr, |bs|)
    ensures var a, before := (addr + k) % B64, Poke(flat, addr, bs[..k]);
      HasByte(before, a) && InPage(a, 1) && Poke(before, a, [bs[k]]) == Poke(flat, addr, bs[..k + 1])
  {
    assert HasByte(flat, addr + k) && (addr + k) % B64 == addr + k;
    PokeExtend(flat, addr, bs, k, 1);
    assert bs[k..k + 1] == [bs[k]];
  }

  lemma PeekNext(flat: Flat, addr: nat, k: nat)
    requires addr + k < B64
    ensures FromLE(Peek(flat, addr, k + 1)) == FromLE(Peek(flat, addr, k)) + ByteAt(flat, (addr + k) % B64) * Pow256(k)
  {
    var b := ByteAt(flat, addr + k);
    assert (addr + k) % B64 == addr + k;
    assert Peek(flat, addr, k + 1) == Peek(flat, addr, k) + [b];
    FromLESnoc(Peek(flat, addr, k), b);
  }

  /** A byte is held by its page's buffer; without a buffer it is zero. */
  lemma HeldByte(t: Table, o: Objects, flat: Flat, home: map<Ptr, nat>, decode: (nat, nat) -> Inst, a: nat)
    requires PagesOk(t, o, flat, home, decode)
    ensures a / PAGE !in t ==> ByteAt(flat, a) == 0
    ensures a / PAGE in t ==> Has(t, o, a / PAGE)
    ensures a / PAGE in t ==>
      var d := o.pages[t[a / PAGE]].data;
      if d == NIL then ByteAt(flat, a) == 0 else d in o.buffers && ByteAt(flat, a) == o.buffers[d][a % PAGE]
  {
    if a / PAGE in t {
      assert PageOk(a / PAGE, t, o, flat[a / PAGE], home, decode);
    }
  }

  /** The buffer a page reads from. */
  function PageData(p: Page): Ptr {
    if p.data == NIL then ZERO_PAGE else p.data
  }

  /** The page object of a mapped page. */
  ghost predicate Has(t: Table, o: Objects, v: nat) {
    v in t && t[v] in o.pages
  }

  /** A read TLB entry names a readable page no read hook watches, and its current buffer. */
  ghost predicate ReadHit(i: nat, e: TlbEntry, t: Table, o: Objects, hooks: seq<Hook>) {
    e.vpn != NO_VPN ==>
      && e.vpn % TLB_SIZE == i && Has(t, o, e.vpn) && Allows(o.pages[t[e.vpn]].prot, Reading)
      && e.data == PageData(o.pages[t[e.vpn]]) && !HooksCover(hooks, e.vpn)
  }

  /** A write TLB entry names a writable page with its own buffer, no decoded code and no write hook. */
  ghost predicate WriteHit(i: nat, e: TlbEntry, t: Table, o: Objects, hooks: seq<Hook>) {
    e.vpn != NO_VPN ==>
      && e.vpn % TLB_SIZE == i && Has(t, o, e.vpn) && Allows(o.pages[t[e.vpn]].prot, Writing)
      && e.data == o.pages[t[e.vpn]].data != NIL && o.pages[t[e.vpn]].code == NIL
      && !HooksCover(hooks, e.vpn)
  }

  /** A code cache entry names an executable page and its current decoded code. */
  ghost predicate CodeHit(vpn: nat, code: Ptr, t: Table, o: Objects) {
    vpn != NO_VPN ==>
      Has(t, o, vpn) && Allows(o.pages[t[vpn]].prot, Fetching) && code == o.pages[t[vpn]].code != NIL
  }

  ghost predicate CodeEntryHit(i: nat, e: CodeEntry, t: Table, o: Objects) {
    CodeHit(e.vpn, e.code, t, o) && (e.vpn != NO_VPN ==> e.vpn % CTLB_SIZE == i)
  }

  ghost predicate CachesSized(c: Caches) {
    |c.rtlb| == |c.wtlb| == TLB_SIZE && |c.ctlb| == CTLB_SIZE
  }

  /** No cache entry is in use. */
  ghost predicate Emptied(c: Caches) {
    CachesSized(c) && c.fetchVPN == NO_VPN
    && (forall i :: 0 <= i < TLB_SIZE ==> c.rtlb[i].vpn == NO_VPN && c.wtlb[i].vpn == NO_VPN)
    && (forall i :: 0 <= i < CTLB_SIZE ==> c.ctlb[i].vpn == NO_VPN)
  }

  ghost predicate CachesOk(c: Caches, t: Table, o: Objects, rhooks: seq<Hook>, whooks: seq<Hook>) {
    && CachesSized(c)
    && (forall i :: 0 <= i < TLB_SIZE ==> ReadHit(i, c.rtlb[i], t, o, rhooks))
    && (forall i :: 0 <= i < TLB_SIZE ==> WriteHit(i, c.wtlb[i], t, o, whooks))
    && (forall i :: 0 <= i < CTLB_SIZE ==> CodeEntryHit(i, c.ctlb[i], t, o))
    && CodeHit(c.fetchVPN, c.fetchCode, t, o)
  }

  // ---- what a change to one page's objects preserves -------------------------------

  ghost predicate SameObject(o: Objects, o': Objects, h: Ptr) {
    && (h in o.pages ==> h in o'.pages && o'.pages[h] == o.pages[h])
    && (h in o.buffers ==> h in o'.buffers && o'.buffers[h] == o.buffers[h])
    && (h in o.codes ==> h in o'.codes && o'.codes[h] == o.codes[h])
  }

  /** o' differs from o only in objects of page v and objects new to home'. */
  ghost predicate OnlyPage(o: Objects, o': Objects, home: map<Ptr, nat>, home': map<Ptr, nat>, v: nat) {
    && ZERO_PAGE in o'.buffers && ZERO_PAGE in o.buffers && o'.buffers[ZERO_PAGE] == o.buffers[ZERO_PAGE]
    && forall h :: h in home && home[h] != v ==> h in home' && home'[h] == home[h] && SameObject(o, o', h)
  }

  lemma PagesAfter(t: Table, o: Objects, o': Objects, flat: Flat, flat': Flat, home: map<Ptr, nat>,
      home': map<Ptr, nat>, v: nat, decode: (nat, nat) -> Inst)
    requires PagesOk(t, o, flat, home, decode) && v in t
    requires OnlyPage(o, o', home, home', v)
    requires flat'.Keys == flat.Keys && forall w :: w in flat && w != v ==> flat'[w] == flat[w]
    requires o'.next >= o.next && forall h :: h in home' ==> h < o'.next
    requires PageOk(v, t, o', flat'[v], home', decode)
    ensures PagesOk(t, o', flat', home', decode)
  {
    forall w | w in t ensures PageOk(w, t, o', flat'[w], home', decode) {
      if w != v {
        assert PageOk(w, t, o, flat[w], home, decode);
      }
    }
  }

  /** Caches survive when only page v's object changed and no entry names v but a current one. */
  lemma CachesAfter(c: Caches, c': Caches, t: Table, o: Objects, o': Objects, rhooks: seq<Hook>, whooks: seq<Hook>,
      v: nat)
    requires CachesOk(c, t, o, rhooks, whooks) && CachesSized(c')
    requires forall w :: Has(t, o, w) && w != v ==> Has(t, o', w) && o'.pages[t[w]] == o.pages[t[w]]
    requires forall i :: 0 <= i < TLB_SIZE ==> c'.rtlb[i].vpn == NO_VPN || c'.rtlb[i] == c.rtlb[i]
    requires forall i :: 0 <= i < TLB_SIZE ==> c'.wtlb[i].vpn == NO_VPN || c'.wtlb[i] == c.wtlb[i]
    requires forall i :: 0 <= i < CTLB_SIZE ==> c'.ctlb[i].vpn == NO_VPN || c'.ctlb[i] == c.ctlb[i]
    requires c'.rtlb[v % TLB_SIZE].vpn == v ==> ReadHit(v % TLB_SIZE, c'.rtlb[v % TLB_SIZE], t, o', rhooks)
    requires c'.wtlb[v % TLB_SIZE].vpn == v ==> WriteHit(v % TLB_SIZE, c'.wtlb[v % TLB_SIZE], t, o', whooks)
    requires c'.ctlb[v % CTLB_SIZE].vpn == v ==> CodeHit(v, c'.ctlb[v % CTLB_SIZE].code, t, o')
    requires c'.fetchVPN == v ==> CodeHit(v, c'.fetchCode, t, o')
    requires c'.fetchVPN == NO_VPN || (c'.fetchVPN == c.fetchVPN && c'.fetchCode == c.fetchCode)
    ensures CachesOk(c', t, o', rhooks, whooks)
  {
    forall i | 0 <= i < TLB_SIZE ensures ReadHit(i, c'.rtlb[i], t, o', rhooks) {
      assert ReadHit(i, c.rtlb[i], t, o, rhooks);
    }
    forall i | 0 <= i < TLB_SIZE ensures WriteHit(i, c'.wtlb[i], t, o', whooks) {
      assert WriteHit(i, c.wtlb[i], t, o, whooks);
    }
    forall i | 0 <= i < CTLB_SIZE ensures CodeEntryHit(i, c'.ctlb[i], t, o') {
      assert CodeEntryHit(i, c.ctlb[i], t, o);
    }
  }

  /** Replacing a page object. */
  function SetPageObj(o: Objects, p: Ptr, page: Page): Objects {
    o.(pages := o.pages[p := page])
  }

  /** No code cache names page v any more. */
  function EvictCode(c: Caches, v: nat): Caches
    requires |c.ctlb| == CTLB_SIZE
  {
    var i := v % CTLB_SIZE;
    var c' := if c.ctlb[i].vpn == v then c.(ctlb := c.ctlb[i := CodeEntry(NO_VPN, NIL)]) else c;
    if c'.fetchVPN == v then c'.(fetchVPN := NO_VPN, fetchCode := NIL) else c'
  }

  lemma DropCodeKeeps(t: Table, o: Objects, c: Caches, flat: Flat, home: map<Ptr, nat>, rhooks: seq<Hook>,
      whooks: seq<Hook>, decode: (nat, nat) -> Inst, v: nat)
    requires PagesOk(t, o, flat, home, decode) && CachesOk(c, t, o, rhooks, whooks) && v in t
    requires t[v] in o.pages
    ensures PagesOk(t, SetPageObj(o, t[v], o.pages[t[v]].(code := NIL)), flat, home, decode)
    ensures CachesOk(EvictCode(c, v), t, SetPageObj(o, t[v], o.pages[t[v]].(code := NIL)), rhooks, whooks)
  {
    var o' := SetPageObj(o, t[v], o.pages[t[v]].(code := NIL));
    PagesAfter(t, o, o', flat, flat, home, home, v, decode);
    CachesAfter(c, EvictCode(c, v), t, o, o', rhooks, whooks, v);
  }

  /** Page v gets a buffer of its own, still all zeros. */
  function AllocObjs(o: Objects, p: Ptr): Objects
    requires p in o.pages
  {
    Objects(o.pages[p := o.pages[p].(data := o.next)], o.buffers[o.next := Zeros()], o.codes, o.next + 1)
  }

  /** The read TLB no longer names page v. */
  function EvictRead(c: Caches, v: nat): Caches
    requires |c.rtlb| == TLB_SIZE
  {
    var i := v % TLB_SIZE;
    if c.rtlb[i].vpn == v then c.(rtlb := c.rtlb[i := c.rtlb[i].(vpn := NO_VPN)]) else c
  }

  lemma AllocKeeps(t: Table, o: Objects, c: Caches, flat: Flat, home: map<Ptr, nat>, rhooks: seq<Hook>,
      whooks: seq<Hook>, decode: (nat, nat) -> Inst, v: nat)
    requires PagesOk(t, o, flat, home, decode) && CachesOk(c, t, o, rhooks, whooks) && v in t
    requires t[v] in o.pages && o.pages[t[v]].data == NIL
    ensures PagesOk(t, AllocObjs(o, t[v]), flat, home[o.next := v], decode)
    ensures CachesOk(EvictRead(c, v), t, AllocObjs(o, t[v]), rhooks, whooks)
  {
    var o', c' := AllocObjs(o, t[v]), EvictRead(c, v);
    assert PageOk(v, t, o, flat[v], home, decode);
    PagesAfter(t, o, o', flat, flat, home, home[o.next := v], v, decode);
    CachesAfter(c, c', t, o, o', rhooks, whooks, v);
  }

  // ---- stores ------------------------------------------------------------------------

  /** The buffer b with bs written at offset off. */
  function Splice(b: PageBytes, off: nat, bs: seq<byte>): PageBytes
    requires off + |bs| <= PAGE
  {
    b[..off] + bs + b[off + |bs|..]
  }

  lemma PokeInPage(flat: Flat, addr: nat, bs: seq<byte>)
    requires addr / PAGE in flat && InPage(addr, |bs|)
    ensures Poke(flat, addr, bs)
      == flat[addr / PAGE := flat[addr / PAGE].(bytes := Splice(flat[addr / PAGE].bytes, addr % PAGE, bs))]
  {
    var v := addr / PAGE;
    forall w | w in flat
      ensures PokePage(flat[w], w, addr, bs) ==
        if w == v then flat[v].(bytes := Splice(flat[v].bytes, addr % PAGE, bs)) else flat[w]
    {
      var l := PokePage(flat[w], w, addr, bs).bytes;
      if w == v {
        assert l == Splice(flat[v].bytes, addr % PAGE, bs);
      } else {
        assert l == flat[w].bytes;
      }
    }
  }

  lemma PeekInPage(flat: Flat, addr: nat, n: nat)
    requires addr / PAGE in flat && InPage(addr, n)
    ensures Peek(flat, addr, n) == flat[addr / PAGE].bytes[addr % PAGE..addr % PAGE + n]
  {
    var l, r := Peek(flat, addr, n), flat[addr / PAGE].bytes[addr % PAGE..addr % PAGE + n];
    forall i | 0 <= i < n ensures l[i] == r[i] {
      assert l[i] == ByteAt(flat, addr + i);
      assert (addr + i) / PAGE == addr / PAGE && (addr + i) % PAGE == addr % PAGE + i;
      assert r[i] == flat[addr / PAGE].bytes[addr % PAGE + i];
    }
  }

  function SetBuffer(o: Objects, d: Ptr, b: PageBytes): Objects {
    o.(buffers := o.buffers[d := b])
  }

  /** Writing through the buffer of a page with no decoded code is a store to the flat map. */
  lemma StoreKeeps(t: Table, o: Objects, c: Caches, flat: Flat, home: map<Ptr, nat>, rhooks: seq<Hook>,
      whooks: seq<Hook>, decode: (nat, nat) -> Inst, addr: nat, bs: seq<byte>)
    requires PagesOk(t, o, flat, home, decode) && CachesOk(c, t, o, rhooks, whooks)
    requires Has(t, o, addr / PAGE) && InPage(addr, |bs|)
    requires o.pages[t[addr / PAGE]].data != NIL && o.pages[t[addr / PAGE]].code == NIL
    ensures var d := o.pages[t[addr / PAGE]].data;
      d in o.buffers
      && PagesOk(t, SetBuffer(o, d, Splice(o.buffers[d], addr % PAGE, bs)), Poke(flat, addr, bs), home, decode)
      && CachesOk(c, t, SetBuffer(o, d, Splice(o.buffers[d], addr % PAGE, bs)), rhooks, whooks)
  {
    var v := addr / PAGE;
    assert PageOk(v, t, o, flat[v], home, decode);
    var d := o.pages[t[v]].data;
    var o' := SetBuffer(o, d, Splice(o.buffers[d], addr % PAGE, bs));
    PokeInPage(flat, addr, bs);
    PagesAfter(t, o, o', flat, Poke(flat, addr, bs), home, home, v, decode);
    CachesSamePages(c, t, o, o', rhooks, whooks);
  }

  lemma CachesSamePages(c: Caches, t: Table, o: Objects, o': Objects, rhooks: seq<Hook>, whooks: seq<Hook>)
    requires CachesOk(c, t, o, rhooks, whooks) && o'.pages == o.pages
    ensures CachesOk(c, t, o', rhooks, whooks)
  {
    forall i | 0 <= i < TLB_SIZE ensures ReadHit(i, c.rtlb[i], t, o', rhooks) && WriteHit(i, c.wtlb[i], t, o', whooks) {
      assert ReadHit(i, c.rtlb[i], t, o, rhooks) && WriteHit(i, c.wtlb[i], t, o, whooks);
    }
    forall i | 0 <= i < CTLB_SIZE ensures CodeEntryHit(i, c.ctlb[i], t, o') {
      assert CodeEntryHit(i, c.ctlb[i], t, o);
    }
  }

  /** An access that does not fault touches mapped bytes only, and does not wrap around the address space. */
  lemma AccessMapped(f: Flat, acc: Access, addr: nat, size: nat)
    requires AccessFault(f, acc, addr, size).None? && addr / PAGE < VPN_LIMIT && size <= PAGE
    ensures Mapped(f, addr, size) && addr + size <= B64
  {
    assert NextPage(addr) == (addr / PAGE + 1) * PAGE;
    forall x | addr <= x < addr + size ensures HasByte(f, x) {
      assert x / PAGE == addr / PAGE || x / PAGE == NextPage(addr) / PAGE;
    }
  }

  // ---- mapping and protection -----------------------------------------------------------

  lemma AddPageKeeps(t: Table, o: Objects, c: Caches, flat: Flat, home: map<Ptr, nat>, rhooks: seq<Hook>,
      whooks: seq<Hook>, decode: (nat, nat) -> Inst, v: nat, prot: nat)
    requires PagesOk(t, o, flat, home, decode) && CachesOk(c, t, o, rhooks, whooks)
    requires v !in t && v < VPN_LIMIT && prot < 8
    ensures PagesOk(t[v := o.next], NewPage(o, prot), flat[v := PageView(prot, Zeros())], home[o.next := v], decode)
    ensures CachesOk(c, t[v := o.next], NewPage(o, prot), rhooks, whooks)
  {
    var t', o', flat', home' := t[v := o.next], NewPage(o, prot), flat[v := PageView(prot, Zeros())], home[o.next := v];
    forall w | w in t' ensures PageOk(w, t', o', flat'[w], home', decode) {
      if w != v {
        assert PageOk(w, t, o, flat[w], home, decode);
      }
    }
    CachesMove(c, t, t', o, o', rhooks, whooks);
  }

  function NewPage(o: Objects, prot: nat): Objects {
    o.(pages := o.pages[o.next := Page(NIL, prot, NIL)], next := o.next + 1)
  }

  /** Caches survive any change that keeps the page objects of mapped pages. */
  lemma CachesMove(c: Caches, t: Table, t': Table, o: Objects, o': Objects, rhooks: seq<Hook>, whooks: seq<Hook>)
    requires CachesOk(c, t, o, rhooks, whooks)
    requires forall w :: Has(t, o, w) ==> Has(t', o', w) && o'.pages[t'[w]] == o.pages[t[w]]
    ensures CachesOk(c, t', o', rhooks, whooks)
  {
    forall i | 0 <= i < TLB_SIZE ensures ReadHit(i, c.rtlb[i], t', o', rhooks)
      && WriteHit(i, c.wtlb[i], t', o', whooks) {
      assert ReadHit(i, c.rtlb[i], t, o, rhooks) && WriteHit(i, c.wtlb[i], t, o, whooks);
    }
    forall i | 0 <= i < CTLB_SIZE ensures CodeEntryHit(i, c.ctlb[i], t', o') {
      assert CodeEntryHit(i, c.ctlb[i], t, o);
    }
  }

  lemma RemovePageKeeps(t: Table, o: Objects, flat: Flat, home: map<Ptr, nat>, decode: (nat, nat) -> Inst, v: nat)
    requires PagesOk(t, o, flat, home, decode)
    ensures PagesOk(t - {v}, o, flat - {v}, home, decode)
  {
    forall w | w in t - {v} ensures PageOk(w, t - {v}, o, (flat - {v})[w], home, decode) {
      assert PageOk(w, t, o, flat[w], home, decode);
    }
  }

  lemma ProtectKeeps(t: Table, o: Objects, flat: Flat, home: map<Ptr, nat>, decode: (nat, nat) -> Inst, v: nat,
      prot: nat)
    requires PagesOk(t, o, flat, home, decode) && v in t && t[v] in o.pages && prot < 8
    ensures PagesOk(t, SetPageObj(o, t[v], o.pages[t[v]].(prot := prot)), flat[v := flat[v].(prot := prot)], home,
      decode)
  {
    assert PageOk(v, t, o, flat[v], home, decode);
    PagesAfter(t, o, SetPageObj(o, t[v], o.pages[t[v]].(prot := prot)), flat, flat[v := flat[v].(prot := prot)],
               home, home, v, decode);
  }

  /** Validates a page-aligned range, with the wrap-around of 64-bit addresses; returns its first and past-the-end
      pages. */
  function RangeVPNs(addr: nat, size: nat): (r: Option<(nat, nat)>)
    requires addr < B64 && size < B64
    ensures r.Some? <==> GoodRange(addr, size)
    ensures r.Some? ==> r.value == (addr / PAGE, (addr + size) / PAGE) && r.value.1 <= VPN_LIMIT
  {
    if size == 0 || addr % PAGE != 0 || size % PAGE != 0 then None else
    var end := (addr + size) % B64;
    if end < addr || (end - 1) / ADDRESS_SPACE != 0 then None else Some((addr / PAGE, end / PAGE))
  }

  // ---- filling the caches --------------------------------------------------------------

  lemma ReadFillKeeps(t: Table, o: Objects, c: Caches, rhooks: seq<Hook>, whooks: seq<Hook>, v: nat)
    requires CachesOk(c, t, o, rhooks, whooks) && Has(t, o, v) && v != NO_VPN
    requires Allows(o.pages[t[v]].prot, Reading) && !HooksCover(rhooks, v)
    ensures CachesOk(c.(rtlb := c.rtlb[v % TLB_SIZE := TlbEntry(v, PageData(o.pages[t[v]]))]), t, o, rhooks, whooks)
  {
  }

  lemma WriteFillKeeps(t: Table, o: Objects, c: Caches, rhooks: seq<Hook>, whooks: seq<Hook>, v: nat)
    requires CachesOk(c, t, o, rhooks, whooks) && Has(t, o, v) && v != NO_VPN
    requires Allows(o.pages[t[v]].prot, Writing) && !HooksCover(whooks, v)
    requires o.pages[t[v]].data != NIL && o.pages[t[v]].code == NIL
    ensures CachesOk(c.(wtlb := c.wtlb[v % TLB_SIZE := TlbEntry(v, o.pages[t[v]].data)]), t, o, rhooks, whooks)
  {
  }

  // ---- decoded code ------------------------------------------------------------------------

  /** Page object p gets an empty decoded page. */
  function NewCode(o: Objects, p: Ptr): Objects
    requires p in o.pages
  {
    Objects(o.pages[p := o.pages[p].(code := o.next)], o.buffers,
            o.codes[o.next := CodePage(p, seq(INSTS_PER_PAGE, _ => None))], o.next + 1)
  }

  /** The write TLB no longer names page v. */
  function EvictWrite(c: Caches, v: nat): Caches
    requires |c.wtlb| == TLB_SIZE
  {
    var i := v % TLB_SIZE;
    if c.wtlb[i].vpn == v then c.(wtlb := c.wtlb[i := c.wtlb[i].(vpn := NO_VPN)]) else c
  }

  lemma NewCodeKeeps(t: Table, o: Objects, c: Caches, flat: Flat, home: map<Ptr, nat>, rhooks: seq<Hook>,
      whooks: seq<Hook>, decode: (nat, nat) -> Inst, v: nat)
    requires PagesOk(t, o, flat, home, decode) && CachesOk(c, t, o, rhooks, whooks) && v in t
    requires t[v] in o.pages && o.pages[t[v]].code == NIL
    ensures PagesOk(t, NewCode(o, t[v]), flat, home[o.next := v], decode)
    ensures CachesOk(EvictWrite(c, v), t, NewCode(o, t[v]), rhooks, whooks)
  {
    var o', c' := NewCode(o, t[v]), EvictWrite(c, v);
    assert PageOk(v, t, o, flat[v], home, decode);
    PagesAfter(t, o, o', flat, flat, home, home[o.next := v], v, decode);
    CachesAfter(c, c', t, o, o', rhooks, whooks, v);
  }

  lemma CodeFillKeeps(t: Table, o: Objects, c: Caches, rhooks: seq<Hook>, whooks: seq<Hook>, v: nat, code: Ptr)
    requires CachesOk(c, t, o, rhooks, whooks) && v != NO_VPN && CodeHit(v, code, t, o)
    ensures CachesOk(c.(ctlb := c.ctlb[v % CTLB_SIZE := CodeEntry(v, code)], fetchVPN := v, fetchCode := code),
                     t, o, rhooks, whooks)
  {
  }

  /** Slot k of the decoded page code is filled in. */
  function SetInst(o: Objects, code: Ptr, k: nat, inst: Inst): Objects
    requires code in o.codes && k < |o.codes[code].insts|
  {
    o.(codes := o.codes[code := o.codes[code].(insts := o.codes[code].insts[k := Some(inst)])])
  }

  lemma DecodeKeeps(t: Table, o: Objects, c: Caches, flat: Flat, home: map<Ptr, nat>, rhooks: seq<Hook>,
      whooks: seq<Hook>, decode: (nat, nat) -> Inst, v: nat, k: nat)
    requires PagesOk(t, o, flat, home, decode) && CachesOk(c, t, o, rhooks, whooks) && v in t
    requires t[v] in o.pages && o.pages[t[v]].code != NIL && k < INSTS_PER_PAGE
    ensures var code := o.pages[t[v]].code;
      code in o.codes && |o.codes[code].insts| == INSTS_PER_PAGE
      && var o' := SetInst(o, code, k, decode(WordIn(flat[v].bytes, k), v * PAGE + 4 * k));
      PagesOk(t, o', flat, home, decode) && CachesOk(c, t, o', rhooks, whooks)
  {
    assert PageOk(v, t, o, flat[v], home, decode);
    var code := o.pages[t[v]].code;
    var o' := SetInst(o, code, k, decode(WordIn(flat[v].bytes, k), v * PAGE + 4 * k));
    PagesAfter(t, o, o', flat, flat, home, home, v, decode);
    CachesSamePages(c, t, o, o', rhooks, whooks);
  }

  /** Every page keeps its data and protection, and loses its decoded code or keeps it. */
  ghost predicate CodeLost(o: Objects, o': Objects) {
    && o'.pages.Keys == o.pages.Keys && o'.buffers == o.buffers && o'.codes == o.codes && o'.next == o.next
    && forall h :: h in o.pages ==> o'.pages[h] == o.pages[h] || o'.pages[h] == o.pages[h].(code := NIL)
  }

  lemma CodeLostCaches(c: Caches, c': Caches, t: Table, o: Objects, o': Objects, rhooks: seq<Hook>, whooks: seq<Hook>)
    requires CachesOk(c, t, o, rhooks, whooks) && CodeLost(o, o')
    requires CachesSized(c') && c'.rtlb == c.rtlb && c'.wtlb == c.wtlb && c'.fetchVPN == NO_VPN
    requires forall i :: 0 <= i < CTLB_SIZE ==> c'.ctlb[i].vpn == NO_VPN
    ensures CachesOk(c', t, o', rhooks, whooks)
  {
    forall i | 0 <= i < TLB_SIZE ensures ReadHit(i, c'.rtlb[i], t, o', rhooks)
      && WriteHit(i, c'.wtlb[i], t, o', whooks) {
      assert ReadHit(i, c.rtlb[i], t, o, rhooks) && WriteHit(i, c.wtlb[i], t, o, whooks);
    }
  }

  lemma LoseCodeKeeps(t: Table, o: Objects, flat: Flat, home: map<Ptr, nat>, decode: (nat, nat) -> Inst, v: nat)
    requires PagesOk(t, o, flat, home, decode) && v in t && t[v] in o.pages
    ensures PagesOk(t, SetPageObj(o, t[v], o.pages[t[v]].(code := NIL)), flat, home, decode)
  {
    assert PageOk(v, t, o, flat[v], home, decode);
    PagesAfter(t, o, SetPageObj(o, t[v], o.pages[t[v]].(code := NIL)), flat, flat, home, home, v, decode);
  }

  // ---- hooks ---------------------------------------------------------------------------------

  lemma {:induction false} WithoutCovers(hs: seq<Hook>, id: nat, v: nat)
    ensures HooksCover(Without(hs, id), v) ==> HooksCover(hs, v)
  {
    if |hs| > 0 {
      var front, ws := hs[..|hs| - 1], Without(hs, id);
      WithoutCovers(front, id, v);
      if HooksCover(ws, v) {
        var k :| 0 <= k < |ws| && CoversPage(ws[k], v);
        if k < |Without(front, id)| {
          assert CoversPage(Without(front, id)[k], v);
          var j :| 0 <= j < |front| && CoversPage(front[j], v);
          assert CoversPage(hs[j], v);
        } else {
          assert CoversPage(hs[|hs| - 1], v);
        }
      }
    }
  }

  /** Removing a hook never exposes a cached page. */
  lemma RemoveHookKeeps(c: Caches, t: Table, o: Objects, rhooks: seq<Hook>, whooks: seq<Hook>, rid: nat, wid: nat)
    requires CachesOk(c, t, o, rhooks, whooks)
    ensures CachesOk(c, t, o, Without(rhooks, rid), whooks)
    ensures CachesOk(c, t, o, rhooks, Without(whooks, wid))
  {
    forall i | 0 <= i < TLB_SIZE
      ensures ReadHit(i, c.rtlb[i], t, o, Without(rhooks, rid)) && WriteHit(i, c.wtlb[i], t, o, Without(whooks, wid))
    {
      assert ReadHit(i, c.rtlb[i], t, o, rhooks) && WriteHit(i, c.wtlb[i], t, o, whooks);
      WithoutCovers(rhooks, rid, c.rtlb[i].vpn);
      WithoutCovers(whooks, wid, c.wtlb[i].vpn);
    }
  }

  class Memory {
    const pt: PageTable
    const decode: (nat, nat) -> Inst     // (word, pc): the interpreter's decoder
    var objs: Objects
    var caches: Caches
    var rhooks: seq<Hook>
    var whooks: seq<Hook>
    ghost var log: seq<Event>            // every call made to a memory hook
    ghost var flat: Flat                 // what the pages mean
    ghost var home: map<Ptr, nat>        // the page each object belongs to

    ghost predicate TableOk()
      reads pt, pt.Repr
    {
      this !in pt.Repr && pt.Valid()
    }

    ghost predicate Valid()
      reads this, pt
    {
      && PagesOk(pt.pages, objs, flat, home, decode)
      && CachesOk(caches, pt.pages, objs, rhooks, whooks)
    }

    ghost function View(): Mem
      reads this
    {
      Mem(flat, rhooks, whooks, log)
    }

    constructor (decode: (nat, nat) -> Inst)
      ensures Valid() && TableOk() && fresh(pt.Repr) && this.decode == decode
      ensures View() == Mem(map[], [], [], [])
    {
      pt := new PageTable();
      this.decode := decode;
      objs := Objects(map[], map[ZERO_PAGE := Zeros()], map[], ZERO_PAGE + 1);
      caches := Caches(seq(TLB_SIZE, _ => TlbEntry(NO_VPN, NIL)), seq(TLB_SIZE, _ => TlbEntry(NO_VPN, NIL)),
                       seq(CTLB_SIZE, _ => CodeEntry(NO_VPN, NIL)), NO_VPN, NIL);
      rhooks, whooks, log, flat, home := [], [], [], map[], map[];
    }

    /** Empties all four caches. */
    method FlushTLB()
      requires CachesSized(caches)
      modifies this`caches
      ensures Emptied(caches) && CachesOk(caches, pt.pages, objs, rhooks, whooks)
    {
      for i := 0 to TLB_SIZE
        invariant CachesSized(caches)
        invariant forall k :: 0 <= k < i ==> caches.rtlb[k].vpn == NO_VPN && caches.wtlb[k].vpn == NO_VPN
      {
        caches := caches.(rtlb := caches.rtlb[i := caches.rtlb[i].(vpn := NO_VPN)],
                          wtlb := caches.wtlb[i := caches.wtlb[i].(vpn := NO_VPN)]);
      }
      for i := 0 to CTLB_SIZE
        invariant CachesSized(caches)
        invariant forall k :: 0 <= k < TLB_SIZE ==> caches.rtlb[k].vpn == NO_VPN && caches.wtlb[k].vpn == NO_VPN
        invariant forall k :: 0 <= k < i ==> caches.ctlb[k].vpn == NO_VPN
      {
        caches := caches.(ctlb := caches.ctlb[i := CodeEntry(NO_VPN, NIL)]);
      }
      caches := caches.(fetchVPN := NO_VPN, fetchCode := NIL);
    }

    method DropPageCode(vpn: nat, p: Ptr)
      requires Valid() && vpn in pt.pages && p == pt.pages[vpn]
      modifies this`caches, this`objs
      ensures Valid()
      ensures objs == SetPageObj(old(objs), p, old(objs).pages[p].(code := NIL))
    {
      DropCodeKeeps(pt.pages, objs, caches, flat, home, rhooks, whooks, decode, vpn);
      objs := SetPageObj(objs, p, objs.pages[p].(code := NIL));
      if caches.ctlb[vpn % CTLB_SIZE].vpn == vpn {
        caches := caches.(ctlb := caches.ctlb[vpn % CTLB_SIZE := CodeEntry(NO_VPN, NIL)]);
      }
      if caches.fetchVPN == vpn {
        caches := caches.(fetchVPN := NO_VPN, fetchCode := NIL);
      }
    }

    method AllocData(vpn: nat, p: Ptr)
      requires Valid() && vpn in pt.pages && p == pt.pages[vpn]
      requires objs.pages[p].data == NIL
      modifies this`caches, this`objs, this`home
      ensures Valid() && objs == AllocObjs(old(objs), p)
    {
      AllocKeeps(pt.pages, objs, caches, flat, home, rhooks, whooks, decode, vpn);
      home := home[objs.next := vpn];
      objs := AllocObjs(objs, p);
      if caches.rtlb[vpn % TLB_SIZE].vpn == vpn {
        caches := caches.(rtlb := caches.rtlb[vpn % TLB_SIZE := caches.rtlb[vpn % TLB_SIZE].(vpn := NO_VPN)]);
      }
    }

    /** The buffer behind p for a store: allocated on first use, with no decoded code left on the page. */
    method Writable(vpn: nat, p: Ptr) returns (d: Ptr)
      requires Valid() && vpn in pt.pages && p == pt.pages[vpn]
      modifies this`caches, this`objs, this`home
      ensures Valid()
      ensures d != NIL && objs.pages == old(objs).pages[p := old(objs).pages[p].(data := d, code := NIL)]
    {
      if objs.pages[p].data == NIL {
        AllocData(vpn, p);
      }
      if objs.pages[p].code != NIL {
        DropPageCode(vpn, p);
      }
      d := objs.pages[p].data;
    }

    /** Resolves the page of a guest access, or the fault that stops it. */
    method GuestPage(acc: Access, addr: nat, size: nat) returns (r: Result<Ptr>)
      requires Valid() && TableOk()
      ensures match r
        case Ok(p) => PageFault(flat, acc, addr, size).None? && addr / PAGE in pt.pages && p == pt.pages[addr / PAGE]
        case Err(e) => PageFault(flat, acc, addr, size) == Some(e)
    {
      var p := pt.Lookup(addr / PAGE);
      if p == NIL {
        return Err(Fault(UnmappedKind(acc), addr, size));
      }
      assert PageOk(addr / PAGE, pt.pages, objs, flat[addr / PAGE], home, decode);
      if !Allows(objs.pages[p].prot, acc) {
        return Err(Fault(ProtKind(acc), addr, size));
      }
      return Ok(p);
    }

    /** Calls every hook of hs whose range holds addr. */
    method CallHooks(hs: seq<Hook>, addr: nat, size: nat, value: nat)
      modifies this`log
      ensures log == old(log) + Calls(hs, addr, size, value)
    {
      for i := 0 to |hs|
        invariant log == old(log) + Calls(hs[..i], addr, size, value)
      {
        assert hs[..i + 1][..i] == hs[..i];
        if Watches(hs[i], addr) {
          log := log + [Event(hs[i].id, addr, size, value)];
        }
      }
      assert hs[..|hs|] == hs;
    }

    /** What a page that is known to be mapped holds. */
    lemma PageContents(v: nat)
      requires Valid() && v in pt.pages
      ensures v < VPN_LIMIT && Has(pt.pages, objs, v) && v in flat && objs.pages[pt.pages[v]].prot == flat[v].prot
      ensures PageData(objs.pages[pt.pages[v]]) in objs.buffers
      ensures objs.buffers[PageData(objs.pages[pt.pages[v]])] == flat[v].bytes
    {
      assert PageOk(v, pt.pages, objs, flat[v], home, decode);
    }

    method ReadSlow(addr: nat, size: nat) returns (r: Result<nat>)
      requires Valid() && TableOk() && addr < B64 && AccessSize(size)
      modifies this`caches, this`log
      ensures Valid() && (View(), r) == Load(old(View()), addr, size)
    {
      if addr % PAGE <= PAGE - size {
        r := ReadInPage(addr, size);
      } else {
        r := ReadAcross(addr, size);
      }
    }

    method ReadInPage(addr: nat, size: nat) returns (r: Result<nat>)
      requires Valid() && TableOk() && addr < B64 && InPage(addr, size)
      modifies this`caches, this`log
      ensures Valid() && (View(), r) == Load(old(View()), addr, size)
    {
      var vpn := addr / PAGE;
      var g := GuestPage(Reading, addr, size);
      if g.Err? {
        return Err(g.fault);
      }
      var p := g.value;
      PageContents(vpn);
      PeekInPage(flat, addr, size);
      var covered := HooksCoverPage(rhooks, vpn);
      if covered {
        CallHooks(rhooks, addr, size, 0);
      } else {
        NoCalls(rhooks, addr, size, 0);
        assert log + [] == log;
        ReadFillKeeps(pt.pages, objs, caches, rhooks, whooks, vpn);
        caches := caches.(rtlb := caches.rtlb[vpn % TLB_SIZE := TlbEntry(vpn, PageData(objs.pages[p]))]);
      }
      return Ok(FromLE(objs.buffers[PageData(objs.pages[p])][addr % PAGE..addr % PAGE + size]));
    }

    /** An access that crosses a page boundary: both pages are checked before the bytes are gathered. */
    method ReadAcross(addr: nat, size: nat) returns (r: Result<nat>)
      requires Valid() && TableOk() && addr < B64 && !InPage(addr, size) && size <= PAGE
      modifies this`log
      ensures (View(), r) == Load(old(View()), addr, size)
    {
      var g := GuestPage(Reading, addr, size);
      if g.Err? {
        return Err(g.fault);
      }
      g := GuestPage(Reading, NextPage(addr), size);
      if g.Err? {
        return Err(g.fault);
      }
      PageContents(addr / PAGE);
      AccessMapped(flat, Reading, addr, size);
      CallHooks(rhooks, addr, size, 0);
      var v := GatherBytes(addr, size);
      return Ok(v);
    }

    method GatherBytes(addr: nat, size: nat) returns (v: nat)
      requires Valid() && TableOk() && addr + size <= B64
      ensures v == FromLE(Peek(flat, addr, size))
    {
      v := 0;
      for k := 0 to size
        invariant v == FromLE(Peek(flat, addr, k))
      {
        PeekNext(flat, addr, k);
        var b := WrittenByte((addr + k) % B64);
        if b.Some? {
          v := v + b.value * Pow256(k);
        }
      }
    }

    /** The byte at a, if its page is mapped and has been written. */
    method WrittenByte(a: nat) returns (b: Option<byte>)
      requires Valid() && TableOk() && a < B64
      ensures ByteAt(flat, a) == if b.Some? then b.value else 0
    {
      var p := pt.Lookup(a / PAGE);
      HeldByte(pt.pages, objs, flat, home, decode, a);
      if p != NIL && objs.pages[p].data != NIL {
        return Some(objs.buffers[objs.pages[p].data][a % PAGE]);
      }
      return None;
    }

    /** The read fast path, for every access size. */
    method ReadN(addr: nat, size: nat) returns (r: Result<nat>)
      requires Valid() && TableOk() && addr < B64 && AccessSize(size)
      modifies this`caches, this`log
      ensures Valid() && (View(), r) == Load(old(View()), addr, size)
    {
      var e := caches.rtlb[addr / PAGE % TLB_SIZE];
      if e.vpn == addr / PAGE && addr % PAGE <= PAGE - size {
        assert ReadHit(addr / PAGE % TLB_SIZE, e, pt.pages, objs, rhooks);
        PageContents(addr / PAGE);
        PeekInPage(flat, addr, size);
        NoCalls(rhooks, addr, size, 0);
        assert log + [] == log;
        return Ok(FromLE(objs.buffers[e.data][addr % PAGE..addr % PAGE + size]));
      }
      r := ReadSlow(addr, size);
    }

    /** What a read TLB hit promises: the load succeeds, reaches no hook and finds the page's bytes in the buffer. */
    lemma ReadHitLoads(addr: nat, n: nat)
      requires Valid() && addr < B64 && addr % PAGE + n <= PAGE
        && caches.rtlb[addr / PAGE % TLB_SIZE].vpn == addr / PAGE
      ensures var d := caches.rtlb[addr / PAGE % TLB_SIZE].data;
        d in objs.buffers && Load(View(), addr, n)
          == (View(), Ok(FromLE(objs.buffers[d][addr % PAGE..addr % PAGE + n])))
      ensures PageFault(flat, Reading, addr, n).None?
    {
      assert ReadHit(addr / PAGE % TLB_SIZE, caches.rtlb[addr / PAGE % TLB_SIZE], pt.pages, objs, rhooks);
      PageContents(addr / PAGE);
      PeekInPage(flat, addr, n);
      NoCalls(rhooks, addr, n, 0);
      assert log + [] == log;
    }

    lemma ReadHitPair(addr: nat)
      requires Valid() && addr < B64 && addr % PAGE + 16 <= PAGE
        && caches.rtlb[addr / PAGE % TLB_SIZE].vpn == addr / PAGE
      ensures var d, off := caches.rtlb[addr / PAGE % TLB_SIZE].data, addr % PAGE;
        && d in objs.buffers && addr + 8 < B64 && PageFault(flat, Reading, addr, 16).None?
        && Load(View(), addr, 8) == (View(), Ok(FromLE(objs.buffers[d][off..off + 8])))
        && Load(View(), addr + 8, 8) == (View(), Ok(FromLE(objs.buffers[d][off + 8..off + 16])))
    {
      assert ReadHit(addr / PAGE % TLB_SIZE, caches.rtlb[addr / PAGE % TLB_SIZE], pt.pages, objs, rhooks);
      PageContents(addr / PAGE);
      assert (addr + 8) / PAGE == addr / PAGE && (addr + 8) % PAGE == addr % PAGE + 8;
      ReadHitLoads(addr, 8);
      ReadHitLoads(addr + 8, 8);
    }

    /** What a write TLB hit promises: the store succeeds, reaches no hook and may go straight to the buffer. */
    lemma WriteHitStores(addr: nat, n: nat, v: nat)
      requires Valid() && addr < B64 && addr % PAGE + n <= PAGE
        && caches.wtlb[addr / PAGE % TLB_SIZE].vpn == addr / PAGE
      ensures addr / PAGE in pt.pages && Has(pt.pages, objs, addr / PAGE)
      ensures var p := objs.pages[pt.pages[addr / PAGE]];
        caches.wtlb[addr / PAGE % TLB_SIZE].data == p.data != NIL && p.code == NIL
      ensures Store(View(), addr, n, v) == (View().(flat := Poke(flat, addr, ToLE(v, n))), None)
    {
      assert WriteHit(addr / PAGE % TLB_SIZE, caches.wtlb[addr / PAGE % TLB_SIZE], pt.pages, objs, whooks);
      PageContents(addr / PAGE);
      NoCalls(whooks, addr, n, v);
      assert log + [] == log;
    }

    /** A write TLB hit covers a pair of doublewords that fit in the page. */
    lemma WriteHitPair(addr: nat)
      requires Valid() && addr < B64 && addr % PAGE + 16 <= PAGE
        && caches.wtlb[addr / PAGE % TLB_SIZE].vpn == addr / PAGE
      ensures addr + 8 < B64 && (addr + 8) / PAGE == addr / PAGE && (addr + 8) % PAGE == addr % PAGE + 8
      ensures WriteCheck(flat, addr, 16).None?
    {
      WriteHitStores(addr, 8, 0);
      PageContents(addr / PAGE);
    }

    // ---- stores -----------------------------------------------------------------------

    method WriteSlow(addr: nat, size: nat, v: nat) returns (e: Option<Fault>)
      requires Valid() && TableOk() && addr < B64 && AccessSize(size)
      modifies this`caches, this`objs, this`home, this`flat, this`log
      ensures Valid() && (View(), e) == Store(old(View()), addr, size, v)
    {
      if addr % PAGE <= PAGE - size {
        e := WriteInPage(addr, size, v);
      } else {
        e := WriteAcross(addr, size, v);
      }
    }

    /** Writes bs through the buffer of a page that is ready for stores. */
    method PutBytes(d: Ptr, addr: nat, bs: seq<byte>)
      requires Valid() && addr / PAGE in pt.pages && InPage(addr, |bs|)
      requires Has(pt.pages, objs, addr / PAGE)
      requires objs.pages[pt.pages[addr / PAGE]].data == d != NIL && objs.pages[pt.pages[addr / PAGE]].code == NIL
      modifies this`objs, this`flat
      ensures Valid() && flat == Poke(old(flat), addr, bs) && objs.pages == old(objs).pages
    {
      StoreKeeps(pt.pages, objs, caches, flat, home, rhooks, whooks, decode, addr, bs);
      flat := Poke(flat, addr, bs);
      objs := SetBuffer(objs, d, Splice(objs.buffers[d], addr % PAGE, bs));
    }

    method WriteInPage(addr: nat, size: nat, v: nat) returns (e: Option<Fault>)
      requires Valid() && TableOk() && addr < B64 && InPage(addr, size)
      modifies this`caches, this`objs, this`home, this`flat, this`log
      ensures Valid() && (View(), e) == Store(old(View()), addr, size, v)
    {
      var vpn := addr / PAGE;
      var g := GuestPage(Writing, addr, size);
      if g.Err? {
        return Some(g.fault);
      }
      PageContents(vpn);
      var hooked := HooksCoverPage(whooks, vpn);
      if hooked {
        CallHooks(whooks, addr, size, v);
      } else {
        NoCalls(whooks, addr, size, v);
        assert log + [] == log;
      }
      var data := Writable(vpn, g.value);
      PageContents(vpn);
      if !hooked {
        WriteFillKeeps(pt.pages, objs, caches, rhooks, whooks, vpn);
        caches := caches.(wtlb := caches.wtlb[vpn % TLB_SIZE := TlbEntry(vpn, data)]);
      }
      PutBytes(data, addr, ToLE(v, size));
      return None;
    }

    method WriteAcross(addr: nat, size: nat, v: nat) returns (e: Option<Fault>)
      requires Valid() && TableOk() && addr < B64 && !InPage(addr, size) && size <= PAGE
      modifies this`caches, this`objs, this`home, this`flat, this`log
      ensures Valid() && (View(), e) == Store(old(View()), addr, size, v)
    {
      var g := GuestPage(Writing, addr, size);
      if g.Err? {
        return Some(g.fault);
      }
      g := GuestPage(Writing, NextPage(addr), size);
      if g.Err? {
        return Some(g.fault);
      }
      PageContents(addr / PAGE);
      AccessMapped(flat, Writing, addr, size);
      CallHooks(whooks, addr, size, v);
      ToLEBytes(v, size);
      ScatterBytes(addr, size, v, ToLE(v, size));
      return None;
    }

    method ScatterBytes(addr: nat, size: nat, v: nat, ghost bs: seq<byte>)
      requires Valid() && TableOk() && |bs| == size && addr + size <= B64 && Mapped(flat, addr, size)
      requires forall k :: 0 <= k < |bs| ==> bs[k] == ByteOf(v, k)
      modifies this`caches, this`objs, this`home, this`flat
      ensures Valid() && flat == Poke(old(flat), addr, bs)
    {
      PokeNothing(flat, addr);
      for k := 0 to size
        invariant Valid() && flat == Poke(old(flat), addr, bs[..k])
      {
        PokeOneMore(old(flat), addr, bs, k);
        PutChunk((addr + k) % B64, [ByteOf(v, k)]);
      }
      assert bs[..|bs|] == bs;
    }

    /** The write fast path: straight into the buffer a write-TLB hit names, or the slow path. */
    method WriteHot(addr: nat, size: nat, v: nat) returns (e: Option<Fault>)
      requires Valid() && TableOk() && addr < B64 && AccessSize(size)
      modifies this`caches, this`objs, this`home, this`flat, this`log
      ensures Valid() && (View(), e) == Store(old(View()), addr, size, v)
    {
      var t := caches.wtlb[addr / PAGE % TLB_SIZE];
      if t.vpn == addr / PAGE && addr % PAGE <= PAGE - size {
        WriteHitStores(addr, size, v);
        PutBytes(t.data, addr, ToLE(v, size));
        return None;
      }
      e := WriteSlow(addr, size, v);
    }

    /** Sized writes truncate the value first. */
    method WriteN(addr: nat, size: nat, v: nat) returns (e: Option<Fault>)
      requires Valid() && TableOk() && addr < B64 && AccessSize(size)
      modifies this`caches, this`objs, this`home, this`flat, this`log
      ensures Valid() && (View(), e) == Store(old(View()), addr, size, v % Pow256(size))
    {
      e := WriteHot(addr, size, v % Pow256(size));
    }

    /** Validates a store of size bytes without performing it. */
    method CheckWrite(addr: nat, size: nat) returns (e: Option<Fault>)
      requires Valid() && TableOk() && addr < B64 && 0 < size <= PAGE
      ensures e == WriteCheck(flat, addr, size)
    {
      var g := GuestPage(Writing, addr, size);
      if g.Err? {
        return Some(g.fault);
      }
      var last := (addr + size - 1) % B64;
      if last / PAGE != addr / PAGE {
        g := GuestPage(Writing, last, size);
        if g.Err? {
          return Some(g.fault);
        }
      }
      return None;
    }

    // ---- mapping ---------------------------------------------------------------------

    method MapPage(v: nat, prot: nat)
      requires Valid() && TableOk() && v !in pt.pages && v < VPN_LIMIT && prot < 8
      modifies this`objs, this`flat, this`home, pt.Repr
      ensures Valid() && TableOk() && fresh(pt.Repr - old(pt.Repr))
      ensures flat == old(flat)[v := PageView(prot, Zeros())] && pt.pages.Keys == old(pt.pages).Keys + {v}
    {
      AddPageKeeps(pt.pages, objs, caches, flat, home, rhooks, whooks, decode, v, prot);
      pt.SetPage(v, objs.next);
      home := home[objs.next := v];
      flat := flat[v := PageView(prot, Zeros())];
      objs := NewPage(objs, prot);
    }

    /** Maps a range; refuses bad ranges, bad protections and any overlap. */
    method Map(addr: nat, size: nat, prot: int) returns (ok: bool)
      requires Valid() && TableOk() && addr < B64 && size < B64
      modifies this`objs, this`flat, this`home, pt.Repr
      ensures Valid() && TableOk() && fresh(pt.Repr - old(pt.Repr))
      ensures ok <==> GoodRange(addr, size) && 0 <= prot < 8 && Unmapped(old(flat), addr / PAGE, (addr + size) / PAGE)
      ensures flat == if ok then MapPages(old(flat), addr / PAGE, (addr + size) / PAGE, prot) else old(flat)
    {
      var r := RangeVPNs(addr, size);
      if r.None? || !(0 <= prot < 8) {
        return false;
      }
      var (lo, hi) := r.value;
      ok := CheckUnmapped(lo, hi);
      if ok {
        MapRange(lo, hi, prot);
      }
    }

    method CheckUnmapped(lo: nat, hi: nat) returns (ok: bool)
      requires Valid() && TableOk() && lo <= hi
      ensures ok == Unmapped(flat, lo, hi)
    {
      for v := lo to hi
        invariant Unmapped(flat, lo, v)
      {
        var p := pt.Lookup(v);
        if p != NIL {
          return false;
        }
      }
      return true;
    }

    method MapRange(lo: nat, hi: nat, prot: nat)
      requires Valid() && TableOk() && lo <= hi <= VPN_LIMIT && prot < 8 && Unmapped(flat, lo, hi)
      modifies this`objs, this`flat, this`home, pt.Repr
      ensures Valid() && TableOk() && fresh(pt.Repr - old(pt.Repr))
      ensures flat == MapPages(old(flat), lo, hi, prot)
    {
      for v := lo to hi
        invariant Valid() && TableOk() && fresh(pt.Repr - old(pt.Repr))
        invariant flat == MapPages(old(flat), lo, v, prot) && Unmapped(flat, v, hi)
      {
        assert v !in flat && v !in pt.pages;
        MapPage(v, prot);
        assert flat == MapPages(old(flat), lo, v + 1, prot);
      }
    }

    /** Whether every page of a good range is mapped. */
    method CheckMapped(addr: nat, size: nat) returns (r: Option<(nat, nat)>)
      requires Valid() && TableOk() && addr < B64 && size < B64
      ensures r.Some? <==> GoodRange(addr, size) && AllMapped(flat, addr / PAGE, (addr + size) / PAGE)
      ensures r.Some? ==> r.value == (addr / PAGE, (addr + size) / PAGE) && r.value.1 <= VPN_LIMIT
    {
      r := RangeVPNs(addr, size);
      if r.Some? {
        for v := r.value.0 to r.value.1
          invariant AllMapped(flat, r.value.0, v)
        {
          var p := pt.Lookup(v);
          if p == NIL {
            return None;
          }
        }
      }
    }

    method Unmap(addr: nat, size: nat) returns (ok: bool)
      requires Valid() && TableOk() && addr < B64 && size < B64
      modifies this`caches, this`flat, pt.Repr
      ensures Valid() && TableOk() && fresh(pt.Repr - old(pt.Repr))
      ensures ok <==> GoodRange(addr, size) && AllMapped(old(flat), addr / PAGE, (addr + size) / PAGE)
      ensures flat == if ok then UnmapPages(old(flat), addr / PAGE, (addr + size) / PAGE) else old(flat)
    {
      var r := CheckMapped(addr, size);
      if r.None? {
        return false;
      }
      UnmapRange(r.value.0, r.value.1);
      FlushTLB();
      return true;
    }

    /** Takes pages out of the table; the caches are stale until they are flushed. */
    method UnmapRange(lo: nat, hi: nat)
      requires PagesOk(pt.pages, objs, flat, home, decode) && TableOk() && lo <= hi <= VPN_LIMIT
      modifies this`flat, pt.Repr
      ensures PagesOk(pt.pages, objs, flat, home, decode) && TableOk() && fresh(pt.Repr - old(pt.Repr))
      ensures flat == UnmapPages(old(flat), lo, hi)
    {
      for v := lo to hi
        invariant TableOk() && fresh(pt.Repr - old(pt.Repr))
        invariant PagesOk(pt.pages, objs, flat, home, decode)
        invariant flat == UnmapPages(old(flat), lo, v)
      {
        RemovePageKeeps(pt.pages, objs, flat, home, decode, v);
        pt.SetPage(v, NIL);
        flat := flat - {v};
      }
    }

    method Protect(addr: nat, size: nat, prot: int) returns (ok: bool)
      requires Valid() && TableOk() && addr < B64 && size < B64
      modifies this`caches, this`objs, this`flat
      ensures Valid()
      ensures ok <==> 0 <= prot < 8 && GoodRange(addr, size) && AllMapped(old(flat), addr / PAGE, (addr + size) / PAGE)
      ensures flat == if ok then ProtectPages(old(flat), addr / PAGE, (addr + size) / PAGE, prot) else old(flat)
    {
      if !(0 <= prot < 8) {
        return false;
      }
      var r := CheckMapped(addr, size);
      if r.None? {
        return false;
      }
      ProtectRange(r.value.0, r.value.1, prot);
      FlushTLB();
      return true;
    }

    /** Rewrites page protections; the caches are stale until they are flushed. */
    method ProtectRange(lo: nat, hi: nat, prot: nat)
      requires PagesOk(pt.pages, objs, flat, home, decode) && TableOk() && lo <= hi && prot < 8
        && AllMapped(flat, lo, hi)
      modifies this`objs, this`flat
      ensures PagesOk(pt.pages, objs, flat, home, decode) && flat == ProtectPages(old(flat), lo, hi, prot)
    {
      for v := lo to hi
        invariant PagesOk(pt.pages, objs, flat, home, decode)
        invariant flat == ProtectPages(old(flat), lo, v, prot) && flat.Keys == old(flat).Keys
      {
        assert v in old(flat);
        ProtectMapped(v, prot);
      }
    }

    method ProtectMapped(v: nat, prot: nat)
      requires PagesOk(pt.pages, objs, flat, home, decode) && TableOk() && v in flat && prot < 8
      modifies this`objs, this`flat
      ensures PagesOk(pt.pages, objs, flat, home, decode) && flat == SetProt(old(flat), v, prot)
    {
      var p := pt.Lookup(v);
      ProtectPage(v, p, prot);
    }

    method ProtectPage(v: nat, p: Ptr, prot: nat)
      requires PagesOk(pt.pages, objs, flat, home, decode) && v in pt.pages && p == pt.pages[v] && prot < 8
      modifies this`objs, this`flat
      ensures PagesOk(pt.pages, objs, flat, home, decode) && flat == old(flat)[v := old(flat)[v].(prot := prot)]
    {
      assert PageOk(v, pt.pages, objs, flat[v], home, decode);
      ProtectKeeps(pt.pages, objs, flat, home, decode, v, prot);
      objs := SetPageObj(objs, p, objs.pages[p].(prot := prot));
      flat := flat[v := flat[v].(prot := prot)];
    }

    method IsMapped(addr: nat) returns (b: bool)
      requires Valid() && TableOk()
      ensures b == HasByte(flat, addr)
    {
      var p := pt.Lookup(addr / PAGE);
      return p != NIL;
    }

    // ---- host access --------------------------------------------------------------------

    lemma PageNumbers()
      requires Valid()
      ensures forall v :: v in flat ==> v < VPN_LIMIT
    {
      forall v | v in flat ensures v < VPN_LIMIT {
        assert PageOk(v, pt.pages, objs, flat[v], home, decode);
      }
    }

    /** Whether every byte of a range is mapped. */
    method HostCheck(addr: nat, n: nat) returns (ok: bool)
      requires Valid() && TableOk() && addr < B64 && n < B64
      ensures ok == Mapped(flat, addr, n)
    {
      if n == 0 {
        return true;
      }
      if (addr + n) % B64 < addr {
        PageNumbers();
        assert !HasByte(flat, addr + n - 1);
        return false;
      }
      for v := addr / PAGE to (addr + n - 1) / PAGE + 1
        invariant AllMapped(flat, addr / PAGE, v)
      {
        var p := pt.Lookup(v);
        if p == NIL {
          var x := if v * PAGE < addr then addr else v * PAGE;
          assert !HasByte(flat, x);
          return false;
        }
      }
      return true;
    }

    /** The host's view of a mapped range, page by page; read permission plays no part. */
    method HostRead(addr: nat, dst: array<byte>) returns (ok: bool)
      requires Valid() && TableOk() && addr < B64 && dst.Length < B64 && dst !in pt.Repr
      modifies dst
      ensures ok == Mapped(flat, addr, dst.Length)
      ensures dst[..] == if ok then Peek(flat, addr, dst.Length) else old(dst[..])
    {
      ok := HostCheck(addr, dst.Length);
      if ok {
        CopyOut(addr, dst);
      }
    }

    method CopyOut(addr: nat, dst: array<byte>)
      requires Valid() && TableOk() && dst !in pt.Repr && Mapped(flat, addr, dst.Length)
      modifies dst
      ensures dst[..] == Peek(flat, addr, dst.Length)
    {
      var i := 0;
      while i < dst.Length
        invariant i <= dst.Length && dst[..i] == Peek(flat, addr, i)
      {
        var n := ChunkAt(addr + i, dst.Length - i);
        assert HasByte(flat, addr + i);
        var chunk := GetChunk(addr + i, n);
        forall k | 0 <= k < n {
          dst[i + k] := chunk[k];
        }
        PeekSplit(flat, addr, i, n);
        assert dst[..i + n] == dst[..i] + chunk;
        i := i + n;
      }
    }

    /** The bytes of a range that lies on one page. */
    method GetChunk(a: nat, n: nat) returns (bs: seq<byte>)
      requires Valid() && TableOk() && HasByte(flat, a) && InPage(a, n)
      ensures bs == Peek(flat, a, n)
    {
      var p := pt.Lookup(a / PAGE);
      PageContents(a / PAGE);
      PeekInPage(flat, a, n);
      if objs.pages[p].data == NIL {
        return seq<byte>(n, _ => 0);
      }
      return objs.buffers[objs.pages[p].data][a % PAGE..a % PAGE + n];
    }

    /** Overwrites a mapped range page by page. Write permission plays no part, and code decoded from the pages is
        forgotten. */
    method HostWrite(addr: nat, src: seq<byte>) returns (ok: bool)
      requires Valid() && TableOk() && addr < B64 && |src| < B64
      modifies this`caches, this`objs, this`home, this`flat
      ensures Valid() && ok == Mapped(old(flat), addr, |src|)
      ensures flat == if ok then Poke(old(flat), addr, src) else old(flat)
    {
      ok := HostCheck(addr, |src|);
      if ok {
        CopyIn(addr, src);
      }
    }

    method CopyIn(addr: nat, src: seq<byte>)
      requires Valid() && TableOk() && Mapped(flat, addr, |src|)
      modifies this`caches, this`objs, this`home, this`flat
      ensures Valid() && flat == Poke(old(flat), addr, src)
    {
      PokeNothing(flat, addr);
      var i := 0;
      while i < |src|
        invariant i <= |src| && Valid() && flat == Poke(old(flat), addr, src[..i])
      {
        var n := ChunkAt(addr + i, |src| - i);
        PokeChunk(old(flat), addr, src, i, n);
        PutChunk(addr + i, src[i..i + n]);
        i := i + n;
      }
      assert src[..|src|] == src;
    }

    /** Stores bytes that lie on one page. */
    method PutChunk(a: nat, bs: seq<byte>)
      requires Valid() && TableOk() && HasByte(flat, a) && InPage(a, |bs|)
      modifies this`caches, this`objs, this`home, this`flat
      ensures Valid() && flat == Poke(old(flat), a, bs)
    {
      var p := pt.Lookup(a / PAGE);
      PageContents(a / PAGE);
      var d := Writable(a / PAGE, p);
      PageContents(a / PAGE);
      PutBytes(d, a, bs);
    }

    // ---- code ----------------------------------------------------------------------------

    /** Makes pc's page the one instructions are fetched from. */
    method Fetch(pc: nat) returns (e: Option<Fault>)
      requires Valid() && TableOk() && pc < B64
      modifies this`caches, this`objs, this`home
      ensures Valid() && e == PageFault(flat, Fetching, pc, 4)
      ensures e.None? ==> caches.fetchVPN == pc / PAGE
    {
      var vpn := pc / PAGE;
      var ce := caches.ctlb[vpn % CTLB_SIZE];
      if ce.vpn == vpn {
        assert CodeEntryHit(vpn % CTLB_SIZE, ce, pt.pages, objs);
        PageContents(vpn);
        caches := caches.(fetchVPN := vpn, fetchCode := ce.code);
        return None;
      }
      var g := GuestPage(Fetching, pc, 4);
      if g.Err? {
        return Some(g.fault);
      }
      PageContents(vpn);
      if objs.pages[g.value].code == NIL {
        AddCode(vpn, g.value);
        PageContents(vpn);
      }
      var code := objs.pages[g.value].code;
      CodeFillKeeps(pt.pages, objs, caches, rhooks, whooks, vpn, code);
      caches := caches.(ctlb := caches.ctlb[vpn % CTLB_SIZE := CodeEntry(vpn, code)], fetchVPN := vpn,
        fetchCode := code);
      return None;
    }

    /** The fetch cache only names executable pages. */
    lemma FetchHit(pc: Word)
      requires Valid() && caches.fetchVPN == pc / PAGE
      ensures PageFault(flat, Fetching, pc, 4).None?
    {
      PageContents(pc / PAGE);
    }

    /** Forgets the page instructions are fetched from. */
    method DropFetch()
      requires Valid()
      modifies this`caches
      ensures Valid() && caches.fetchVPN == NO_VPN
    {
      caches := caches.(fetchVPN := NO_VPN);
    }

    /** Starts decoding a page; stores to it must now drop the decoded code, so the write TLB forgets it. */
    method AddCode(vpn: nat, p: Ptr)
      requires Valid() && vpn in pt.pages && p == pt.pages[vpn] && p in objs.pages && objs.pages[p].code == NIL
      modifies this`caches, this`objs, this`home
      ensures Valid() && p in objs.pages && objs.pages[p].code != NIL
    {
      NewCodeKeeps(pt.pages, objs, caches, flat, home, rhooks, whooks, decode, vpn);
      home := home[objs.next := vpn];
      objs := NewCode(objs, p);
      if caches.wtlb[vpn % TLB_SIZE].vpn == vpn {
        caches := caches.(wtlb := caches.wtlb[vpn % TLB_SIZE := caches.wtlb[vpn % TLB_SIZE].(vpn := NO_VPN)]);
      }
    }

    lemma SlotOfPc(pc: nat)
      requires pc % 4 == 0
      ensures var k := pc / 4 % INSTS_PER_PAGE; pc % PAGE == 4 * k && pc == pc / PAGE * PAGE + 4 * k
    {
    }

    /** The decoded instruction at pc, decoded now if it has not been since the page last changed. */
    method CurrentInst(pc: nat) returns (inst: Inst)
      requires Valid() && pc % 4 == 0 && caches.fetchVPN == pc / PAGE != NO_VPN
      modifies this`objs
      ensures Valid() && inst == decode(FromLE(Peek(flat, pc, 4)), pc)
    {
      var vpn, k := pc / PAGE, pc / 4 % INSTS_PER_PAGE;
      assert PageOk(vpn, pt.pages, objs, flat[vpn], home, decode);
      PeekInPage(flat, pc, 4);
      SlotOfPc(pc);
      var cp := objs.codes[caches.fetchCode];
      assert SlotOk(cp.insts[k], WordIn(flat[vpn].bytes, k), vpn * PAGE + 4 * k, decode);
      if cp.insts[k].Some? {
        return cp.insts[k].value;
      }
      var w := Raw(cp, pc);
      DecodeKeeps(pt.pages, objs, caches, flat, home, rhooks, whooks, decode, vpn, k);
      inst := decode(w, pc);
      objs := SetInst(objs, caches.fetchCode, k, inst);
    }

    /** The encoding at pc, read from the page a decoded page belongs to. */
    method Raw(cp: CodePage, pc: nat) returns (w: nat)
      requires Valid() && pc / PAGE in pt.pages && cp.pg == pt.pages[pc / PAGE] && InPage(pc, 4)
      ensures w == FromLE(Peek(flat, pc, 4))
    {
      assert PageOk(pc / PAGE, pt.pages, objs, flat[pc / PAGE], home, decode);
      PeekInPage(flat, pc, 4);
      if objs.pages[cp.pg].data == NIL {
        FromLEZeros(Peek(flat, pc, 4));
        return 0;
      }
      return FromLE(objs.buffers[objs.pages[cp.pg].data][pc % PAGE..pc % PAGE + 4]);
    }

    /** Discards every decoded instruction. */
    method DropCode()
      requires Valid() && TableOk()
      modifies this`caches, this`objs
      ensures Valid() && objs.buffers == old(objs).buffers
      ensures forall v :: v in pt.pages ==> pt.pages[v] in objs.pages && objs.pages[pt.pages[v]].code == NIL
    {
      for i1 := 0 to FANOUT
        invariant Dropping(old(objs)) && Dropped(i1 * 0x100_0000) && caches == old(caches)
      {
        if pt.l1[i1] == null {
          pt.EmptyLevel2(i1);
        } else {
          DropLevel2(i1, old(objs));
        }
      }
      var ct := caches.ctlb;
      for i := 0 to CTLB_SIZE
        invariant |ct| == CTLB_SIZE && forall k :: 0 <= k < i ==> ct[k].vpn == NO_VPN
      {
        ct := ct[i := CodeEntry(NO_VPN, NIL)];
      }
      CodeLostCaches(caches, caches.(ctlb := ct, fetchVPN := NO_VPN, fetchCode := NIL), pt.pages, old(objs), objs,
        rhooks, whooks);
      caches := caches.(ctlb := ct, fetchVPN := NO_VPN, fetchCode := NIL);
      forall v | v in pt.pages ensures pt.pages[v] in objs.pages && objs.pages[pt.pages[v]].code == NIL {
        assert PageOk(v, pt.pages, objs, flat[v], home, decode);
      }
    }

    ghost predicate Dropping(o: Objects)
      reads this, pt
    {
      PagesOk(pt.pages, objs, flat, home, decode) && CodeLost(o, objs)
    }

    /** No page below number n has decoded code. */
    ghost predicate Dropped(n: nat)
      reads this, pt
    {
      forall v :: v in pt.pages && v < n ==> pt.pages[v] in objs.pages && objs.pages[pt.pages[v]].code == NIL
    }

    method DropLevel2(i1: nat, ghost o: Objects)
      requires TableOk() && Dropping(o) && i1 < FANOUT && pt.l1[i1] != null && Dropped(i1 * 0x100_0000)
      modifies this`objs
      ensures Dropping(o) && Dropped((i1 + 1) * 0x100_0000)
    {
      for i2 := 0 to FANOUT
        invariant Dropping(o) && Dropped(i1 * 0x100_0000 + i2 * FANOUT)
      {
        if pt.l1[i1][i2] == null {
          pt.EmptyLevel3(i1, i2);
        } else {
          DropLevel3(i1, i2, o);
        }
      }
    }

    method DropLevel3(i1: nat, i2: nat, ghost o: Objects)
      requires TableOk() && Dropping(o) && i1 < FANOUT && i2 < FANOUT && pt.l1[i1] != null && pt.l1[i1][i2] != null
      requires Dropped(i1 * 0x100_0000 + i2 * FANOUT)
      modifies this`objs
      ensures Dropping(o) && Dropped(i1 * 0x100_0000 + (i2 + 1) * FANOUT)
    {
      for i3 := 0 to FANOUT
        invariant Dropping(o) && Dropped(i1 * 0x100_0000 + i2 * FANOUT + i3)
      {
        pt.SlotIsPage(i1, i2, i3);
        var p := pt.l1[i1][i2][i3];
        if p != NIL {
          LoseCode(i1 * 0x100_0000 + i2 * FANOUT + i3, p, o);
        }
      }
    }

    method LoseCode(v: nat, p: Ptr, ghost o: Objects)
      requires Dropping(o) && v in pt.pages && p == pt.pages[v] && Dropped(v)
      modifies this`objs
      ensures Dropping(o) && Dropped(v + 1)
    {
      assert PageOk(v, pt.pages, objs, flat[v], home, decode);
      LoseCodeKeeps(pt.pages, objs, flat, home, decode, v);
      objs := SetPageObj(objs, p, objs.pages[p].(code := NIL));
    }

    // ---- hooks -----------------------------------------------------------------------------

    method AddReadHook(id: nat, begin: nat, end: nat)
      requires Valid()
      modifies this`rhooks, this`caches
      ensures Valid() && rhooks == old(rhooks) + [Hook(id, begin, end)] && Emptied(caches)
    {
      rhooks := rhooks + [Hook(id, begin, end)];
      FlushTLB();
    }

    method AddWriteHook(id: nat, begin: nat, end: nat)
      requires Valid()
      modifies this`whooks, this`caches
      ensures Valid() && whooks == old(whooks) + [Hook(id, begin, end)] && Emptied(caches)
    {
      whooks := whooks + [Hook(id, begin, end)];
      FlushTLB();
    }

    method RemoveHook(hs: seq<Hook>, id: nat) returns (out: seq<Hook>)
      ensures out == Without(hs, id)
    {
      out := [];
      for i := 0 to |hs|
        invariant out == Without(hs[..i], id)
      {
        assert hs[..i + 1][..i] == hs[..i];
        if hs[i].id != id {
          out := out + [hs[i]];
        }
      }
      assert hs[..|hs|] == hs;
    }

    method RemoveReadHook(id: nat)
      requires Valid()
      modifies this`rhooks
      ensures Valid() && rhooks == Without(old(rhooks), id)
    {
      RemoveHookKeeps(caches, pt.pages, objs, rhooks, whooks, id, id);
      rhooks := RemoveHook(rhooks, id);
    }

    method RemoveWriteHook(id: nat)
      requires Valid()
      modifies this`whooks
      ensures Valid() && whooks == Without(old(whooks), id)
    {
      RemoveHookKeeps(caches, pt.pages, objs, rhooks, whooks, id, id);
      whooks := RemoveHook(whooks, id);
    }
  }
}
