/** The load and store handlers as the interpreter runs them: on registers, TLBs and guest memory. */
module LoadStoreOps {
  import opened Words
  import opened Instructions
  import opened FlatMemory
  import opened Machine
  import opened LoadStore
  import opened GuestMemory
  import opened PageTables
  import opened Cpu

  // ---- integer loads and stores -----------------------------------------------------

  method LoadAt(c: CPU, i: Inst, addr: Word, wb: bool) returns (e: Option<Stop>)
    requires c.Valid() && c.Ready()
    modifies c`regs, c.mem
    ensures c.Valid()
    ensures (c.regs, c.mem.View(), e) == RunScript(LoadScript(i, old(c.regs), addr, wb), old(c.regs), old(c.mem.View()))
  {
    Perform1(c.mem.View(), LoadN(addr, Sz(i.sz)));
    var r := c.mem.ReadN(addr, Sz(i.sz));
    if r.Err? {
      return Some(Faulted(r.fault));
    }
    c.regs := SetR(c.regs, i.rd, LoadValue(i, r.value));
    if wb {
      c.regs := Writeback(i, c.regs, addr);
    }
    c.regs := Advance(c.regs);
    return None;
  }

  method StoreAt(c: CPU, i: Inst, addr: Word, wb: bool) returns (e: Option<Stop>)
    requires c.Valid() && c.Ready()
    modifies c`regs, c.mem
    ensures c.Valid()
    ensures (c.regs, c.mem.View(), e)
      == RunScript(StoreScript(i, old(c.regs), addr, wb), old(c.regs), old(c.mem.View()))
  {
    Perform1(c.mem.View(), StoreN(addr, Sz(i.sz), Low(c.regs.r[i.rd], Sz(i.sz))));
    var f := c.mem.WriteN(addr, Sz(i.sz), c.regs.r[i.rd]);
    if f.Some? {
      return Some(Faulted(f.value));
    }
    if wb {
      c.regs := Writeback(i, c.regs, addr);
    }
    c.regs := Advance(c.regs);
    return None;
  }

  // ---- specialised handlers: the TLB check inline -----------------------------------

  method HotRead(mem: Memory, a: Word, n: Size) returns (r: Result<Word>)
    requires mem.Valid() && mem.TableOk()
    modifies mem`caches, mem`log
    ensures mem.Valid() && (mem.View(), r) == Load(old(mem.View()), a, n)
  {
    var t := mem.caches.rtlb[a / PAGE % TLB_SIZE];
    if t.vpn == a / PAGE && a % PAGE <= PAGE - n {
      mem.ReadHitLoads(a, n);
      assert AccessSize(n);
      return Ok(Word64(mem.objs.buffers[t.data][a % PAGE..a % PAGE + n]));
    }
    var x := mem.ReadSlow(a, n);
    return if x.Ok? then Ok(x.value) else Err(x.fault);
  }

  method HotLoadAt(c: CPU, i: Inst, a: Word, n: Size) returns (e: Option<Stop>)
    requires c.Valid() && c.Ready()
    modifies c`regs, c.mem
    ensures c.Valid()
    ensures (c.regs, c.mem.View(), e) == RunScript(HotLoad(i, old(c.regs), a, n), old(c.regs), old(c.mem.View()))
  {
    Perform1(c.mem.View(), LoadN(a, n));
    var r := HotRead(c.mem, a, n);
    if r.Err? {
      return Some(Faulted(r.fault));
    }
    c.regs := Advance(SetR(c.regs, i.rd, r.value));
    return None;
  }

  method HotStoreAt(c: CPU, i: Inst, a: Word, n: Size) returns (e: Option<Stop>)
    requires c.Valid() && c.Ready()
    modifies c`regs, c.mem
    ensures c.Valid()
    ensures (c.regs, c.mem.View(), e) == RunScript(HotStore(i, old(c.regs), a, n), old(c.regs), old(c.mem.View()))
  {
    var v := c.regs.r[i.rd];
    Perform1(c.mem.View(), StoreN(a, n, v));
    var f := c.mem.WriteHot(a, n, v);
    if f.Some? {
      return Some(Faulted(f.value));
    }
    c.regs := Advance(c.regs);
    return None;
  }

  /** The 64-bit pair load: sixteen bytes against one TLB entry, or the checked loads. */
  method OpLdp64Off(c: CPU, i: Inst) returns (e: Option<Stop>)
    requires c.Valid() && c.Ready()
    modifies c`regs, c.mem
    ensures c.Valid()
    ensures (c.regs, c.mem.View(), e) == RunScript(Ldp64Script(i, old(c.regs)), old(c.regs), old(c.mem.View()))
  {
    var a := AddrOff(i, c.regs);
    var t := c.mem.caches.rtlb[a / PAGE % TLB_SIZE];
    if t.vpn == a / PAGE && a % PAGE <= PAGE - 16 {
      Ldp64Fast(c, i, a);
      e := None;
    } else {
      e := c.Execute(Ldp64Script(i, c.regs));
    }
  }

  method Ldp64Fast(c: CPU, i: Inst, a: Word)
    requires c.Valid() && a == AddrOff(i, c.regs)
    requires c.mem.caches.rtlb[a / PAGE % TLB_SIZE].vpn == a / PAGE && a % PAGE <= PAGE - 16
    modifies c`regs
    ensures c.Valid()
    ensures (c.regs, c.mem.View(), None) == RunScript(Ldp64Script(i, old(c.regs)), old(c.regs), old(c.mem.View()))
  {
    var v1, v2 := HitPair(c.mem, a);
    Ldp64Hit(i, c.regs, c.mem.View(), v1, v2);
    c.regs := SetR(c.regs, i.rd, v1);
    c.regs := SetR(c.regs, i.ra, v2);
    c.regs := Advance(c.regs);
  }

  /** Two doublewords straight from the buffer of a read TLB entry. */
  method HitPair(mem: Memory, a: Word) returns (v1: Word, v2: Word)
    requires mem.Valid() && mem.caches.rtlb[a / PAGE % TLB_SIZE].vpn == a / PAGE && a % PAGE <= PAGE - 16
    ensures PageFault(mem.flat, Reading, a, 16).None? && Load(mem.View(), a, 8) == (mem.View(), Ok(v1))
    ensures Load(mem.View(), Add(a, 8), 8) == (mem.View(), Ok(v2))
  {
    mem.ReadHitPair(a);
    assert Add(a, 8) == a + 8;
    var buf, off := mem.objs.buffers[mem.caches.rtlb[a / PAGE % TLB_SIZE].data], a % PAGE;
    v1, v2 := Word64(buf[off..off + 8]), Word64(buf[off + 8..off + 16]);
  }

  /** Two doublewords straight into the buffer of a write TLB entry. */
  method PutPair(mem: Memory, a: Word, d: Ptr, v1: Word, v2: Word) returns (ghost m1: Mem)
    requires mem.Valid() && d == mem.caches.wtlb[a / PAGE % TLB_SIZE].data
    requires mem.caches.wtlb[a / PAGE % TLB_SIZE].vpn == a / PAGE && a % PAGE <= PAGE - 16
    modifies mem`objs, mem`flat
    ensures mem.Valid() && WriteCheck(old(mem.flat), a, 16).None?
    ensures Store(old(mem.View()), a, 8, v1) == (m1, None) && Store(m1, Add(a, 8), 8, v2) == (mem.View(), None)
  {
    mem.WriteHitPair(a);
    SecondHalf(a);
    ghost var k := a / PAGE % TLB_SIZE;
    PutOne(mem, a, d, v1, k);
    m1 := mem.View();
    PutOne(mem, a + 8, d, v2, k);
  }

  lemma SecondHalf(a: Word)
    requires a % PAGE <= PAGE - 16
    ensures Add(a, 8) == a + 8 && (a + 8) / PAGE == a / PAGE && (a + 8) % PAGE == a % PAGE + 8
  {
    DivModUnique(a + 8, PAGE, a / PAGE, a % PAGE + 8);
  }

  method PutOne(mem: Memory, a: Word, d: Ptr, v: Word, ghost k: nat)
    requires mem.Valid() && k == a / PAGE % TLB_SIZE && d == mem.caches.wtlb[k].data
    requires mem.caches.wtlb[k].vpn == a / PAGE && a % PAGE <= PAGE - 8
    modifies mem`objs, mem`flat
    ensures mem.Valid() && Store(old(mem.View()), a, 8, v) == (mem.View(), None)
  {
    mem.WriteHitStores(a, 8, v);
    mem.PutBytes(d, a, ToLE(v, 8));
  }

  function Word64(bs: seq<byte>): Word
    requires |bs| <= 8
  {
    Pow256Words();
    Pow256Mono(|bs|, 8);
    FromLE(bs)
  }

  lemma Ldp64Hit(i: Inst, s: Regs, m: Mem, v1: Word, v2: Word)
    requires var a := AddrOff(i, s);
      PageFault(m.flat, Reading, a, 16).None? && Load(m, a, 8) == (m, Ok(v1)) && Load(m, Add(a, 8), 8) == (m, Ok(v2))
    ensures RunScript(Ldp64Script(i, s), s, m) == (Ldp64Commit(i, s, v1, v2), m, None)
  {
    var a := AddrOff(i, s);
    TwoLoads(m, a, v1, v2);
    assert Ldp64Script(i, s).accs == [CheckRead(a, 16), LoadN(a, 8), LoadN(Add(a, 8), 8)];
    assert Ldp64Script(i, s).done([v1, v2]) == Next(Ldp64Commit(i, s, v1, v2));
  }

  lemma TwoLoads(m: Mem, a: Word, v1: Word, v2: Word)
    requires PageFault(m.flat, Reading, a, 16).None? && Load(m, a, 8) == (m, Ok(v1))
      && Load(m, Add(a, 8), 8) == (m, Ok(v2))
    ensures Perform(m, [CheckRead(a, 16), LoadN(a, 8), LoadN(Add(a, 8), 8)]) == Performed(m, [v1, v2], None)
  {
    Perform3(m, CheckRead(a, 16), LoadN(a, 8), LoadN(Add(a, 8), 8));
    assert One(Start(m), CheckRead(a, 16)) == Start(m);
    assert [] + [v1] == [v1] && [v1] + [v2] == [v1, v2];
    assert One(Start(m), LoadN(a, 8)) == Performed(m, [v1], None);
    assert One(Performed(m, [v1], None), LoadN(Add(a, 8), 8)) == Performed(m, [v1, v2], None);
  }

  /** The 64-bit pair store: sixteen bytes against one TLB entry, or the stores after a check. */
  method OpStp64Off(c: CPU, i: Inst) returns (e: Option<Stop>)
    requires c.Valid() && c.Ready()
    modifies c`regs, c.mem
    ensures c.Valid()
    ensures (c.regs, c.mem.View(), e) == RunScript(Stp64Script(i, old(c.regs)), old(c.regs), old(c.mem.View()))
  {
    var a := AddrOff(i, c.regs);
    var t := c.mem.caches.wtlb[a / PAGE % TLB_SIZE];
    if t.vpn == a / PAGE && a % PAGE <= PAGE - 16 {
      Stp64Fast(c, i, a, t.data);
      e := None;
    } else {
      e := c.Execute(Stp64Script(i, c.regs));
    }
  }

  method Stp64Fast(c: CPU, i: Inst, a: Word, d: Ptr)
    requires c.Valid() && a == AddrOff(i, c.regs) && d == c.mem.caches.wtlb[a / PAGE % TLB_SIZE].data
    requires c.mem.caches.wtlb[a / PAGE % TLB_SIZE].vpn == a / PAGE && a % PAGE <= PAGE - 16
    modifies c`regs, c.mem`objs, c.mem`flat
    ensures c.Valid()
    ensures (c.regs, c.mem.View(), None) == RunScript(Stp64Script(i, old(c.regs)), old(c.regs), old(c.mem.View()))
  {
    ghost var m := c.mem.View();
    ghost var m1 := PutPair(c.mem, a, d, c.regs.r[i.rd], c.regs.r[i.ra]);
    Stp64Hit(i, c.regs, m, m1, c.mem.View());
    c.regs := Advance(c.regs);
  }

  lemma Stp64Hit(i: Inst, s: Regs, m: Mem, m1: Mem, m2: Mem)
    requires var a := AddrOff(i, s);
      WriteCheck(m.flat, a, 16).None? && Store(m, a, 8, s.r[i.rd]) == (m1, None)
      && Store(m1, Add(a, 8), 8, s.r[i.ra]) == (m2, None)
    ensures RunScript(Stp64Script(i, s), s, m) == (Advance(s), m2, None)
  {
    var a := AddrOff(i, s);
    Perform3(m, CheckWrite(a, 16), StoreN(a, 8, s.r[i.rd]), StoreN(Add(a, 8), 8, s.r[i.ra]));
    assert One(Start(m), CheckWrite(a, 16)) == Start(m);
    assert One(Start(m), StoreN(a, 8, s.r[i.rd])) == Start(m1);
    assert One(Start(m1), StoreN(Add(a, 8), 8, s.r[i.ra])) == Start(m2);
  }

  // ---- block stores and structure accesses: a loop with a moving address ------------

  lemma NextAddr(base: Word, j: nat, n: Size)
    ensures Add(Add(base, Times(j, n)), n) == Add(base, Times(j + 1, n))
  {
    AddAdd(base, Times(j, n), n);
  }

  lemma AddAdd(base: Word, x: nat, y: nat)
    ensures Add(Add(base, x), y) == Add(base, x + y)
  {
  }

  /** The stores of a script all succeeded, or the one that faulted ended it. */
  ghost predicate Ended(sc: Script, s: Regs, m: Mem, m': Mem, f: Option<Fault>) {
    if f.None? then Perform(m, sc.accs) == Start(m')
    else RunScript(sc, s, m) == (sc.fault([]), m', Some(Faulted(f.value)))
  }

  /** The first k accesses of a script load nothing and lead from m to m'. */
  ghost predicate Ran(sc: Script, m: Mem, k: nat, m': Mem) {
    k <= |sc.accs| && Perform(m, sc.accs[..k]) == Start(m')
  }

  /** The j-th store of a run, given that the check and the stores before it succeeded. */
  method StoreElement(c: CPU, ghost sc: Script, ghost m: Mem, ghost j: nat, addr: Word, n: Size, v: Word)
    returns (f: Option<Fault>)
    requires c.Valid() && c.Ready() && 1 + j < |sc.accs| && sc.accs[1 + j] == StoreN(addr, n, v)
    requires Ran(sc, m, 1 + j, c.mem.View())
    modifies c.mem
    ensures c.Valid()
    ensures f.None? ==> Ran(sc, m, 2 + j, c.mem.View())
    ensures f.Some? ==> Ended(sc, c.regs, m, c.mem.View(), f)
  {
    PerformNext(m, sc.accs, 1 + j);
    ghost var l;
    l, f := c.Access(StoreN(addr, n, v), []);
    if f.Some? {
      FaultEnds(sc, c.regs, m, 2 + j);
    }
  }

  /** The check that opens a block or structure store. */
  method OpenStore(c: CPU, ghost sc: Script, addr: Word, bytes: Span) returns (f: Option<Fault>)
    requires c.Valid() && c.Ready() && |sc.accs| > 0 && sc.accs[0] == CheckWrite(addr, bytes)
    ensures f.None? ==> Ran(sc, c.mem.View(), 1, c.mem.View())
    ensures f.Some? ==> Ended(sc, c.regs, c.mem.View(), c.mem.View(), f)
  {
    f := c.mem.CheckWrite(addr, bytes);
    ghost var m := c.mem.View();
    PerformNext(m, sc.accs, 0);
    assert One(Start(m), CheckWrite(addr, bytes)) == Performed(m, [], f);
    if f.Some? {
      FaultEnds(sc, c.regs, m, 1);
    }
  }

  method OpDcZva(c: CPU, i: Inst) returns (e: Option<Stop>)
    requires c.Valid() && c.Ready()
    modifies c`regs, c.mem
    ensures c.Valid()
    ensures (c.regs, c.mem.View(), e) == RunScript(DcZvaScript(i, old(c.regs)), old(c.regs), old(c.mem.View()))
  {
    var a := DcZvaAddr(i, c.regs);
    ghost var sc, m := DcZvaScript(i, c.regs), c.mem.View();
    var f := ZeroBlock(c, sc, a);
    if f.Some? {
      return Some(Faulted(f.value));
    }
    AllDone(sc, c.regs, m, Start(c.mem.View()));
    c.regs := Advance(c.regs);
    return None;
  }

  /** Checks 64 bytes and zeroes them eight at a time. */
  method ZeroBlock(c: CPU, ghost sc: Script, a: Word) returns (f: Option<Fault>)
    requires c.Valid() && c.Ready() && |sc.accs| == 9 && sc.accs[0] == CheckWrite(a, DCZVA_BYTES)
    requires forall j :: 0 <= j < 8 ==> sc.accs[1 + j] == StoreN(Add(a, Times(j, 8)), 8, 0)
    modifies c.mem
    ensures c.Valid()
    ensures f.None? ==> Ran(sc, old(c.mem.View()), 9, c.mem.View())
    ensures f.Some? ==> Ended(sc, c.regs, old(c.mem.View()), c.mem.View(), f)
  {
    f := OpenStore(c, sc, a, DCZVA_BYTES);
    if f.Some? {
      return;
    }
    for j := 0 to 8
      invariant c.Valid() && f.None?
      invariant Ran(sc, old(c.mem.View()), 1 + j, c.mem.View())
    {
      f := StoreElement(c, sc, old(c.mem.View()), j, Add(a, Times(j, 8)), 8, 0);
      if f.Some? {
        return;
      }
    }
  }
}
