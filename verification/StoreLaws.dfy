/** What holds of every store handler: all of it is done or none of it, and the bytes written are read back. */
module StoreLaws {
  import opened Words
  import opened Instructions
  import opened FlatMemory
  import opened Machine
  import opened LoadStore
  import opened Handlers
  import PageTables
  import GuestMemory

  // ---- faults, byte by byte ----------------------------------------------------------

  /** Only pages the page table can hold are mapped. */
  predicate Bounded(f: Flat) {
    forall v :: v in f ==> v < PageTables.VPN_LIMIT
  }

  /** So it is for the memory of the interpreter. */
  lemma MemoryBounded(mem: GuestMemory.Memory)
    requires mem.Valid() && mem.TableOk()
    ensures Bounded(mem.flat)
  {
    forall v | v in mem.flat ensures v < PageTables.VPN_LIMIT {
      assert v in mem.pt.pages;
    }
  }

  predicate CanByte(f: Flat, acc: Access, x: nat) {
    x / PAGE in f && Allows(f[x / PAGE].prot, acc)
  }

  /** Every byte from a to a + n is mapped with the permission. */
  predicate Reachable(f: Flat, acc: Access, a: nat, n: nat) {
    forall x :: a <= x < a + n ==> CanByte(f, acc, x)
  }

  /** An access faults exactly when some byte of it is unmapped or lacks the permission. */
  lemma AccessFaultIff(f: Flat, acc: Access, a: Word, n: nat)
    requires Bounded(f) && 0 < n <= PAGE
    ensures AccessFault(f, acc, a, n).None? <==> Reachable(f, acc, a, n)
  {
    var b := (a / PAGE + 1) * PAGE;
    if Reachable(f, acc, a, n) {
      assert CanByte(f, acc, a);
      if !InPage(a, n) {
        assert CanByte(f, acc, b);
      }
    }
    if AccessFault(f, acc, a, n).None? {
      forall x | a <= x < a + n ensures CanByte(f, acc, x) {
        assert x / PAGE == a / PAGE || (x / PAGE == b / PAGE && !InPage(a, n));
      }
    }
  }

  /** So does the check before a store in parts, for all the bytes the parts touch. */
  lemma WriteCheckIff(f: Flat, a: Word, n: Span)
    requires Bounded(f)
    ensures WriteCheck(f, a, n).None? <==> Reachable(f, Writing, a, n)
  {
    var last := a + n - 1;
    if Reachable(f, Writing, a, n) {
      assert CanByte(f, Writing, a) && CanByte(f, Writing, last);
    }
    if WriteCheck(f, a, n).None? {
      forall x | a <= x < a + n ensures CanByte(f, Writing, x) {
        assert x / PAGE == a / PAGE || x / PAGE == last / PAGE;
      }
    }
  }

  /** Two flat maps with the same pages and protections. */
  predicate SameProt(f: Flat, g: Flat) {
    f.Keys == g.Keys && forall v :: v in f ==> f[v].prot == g[v].prot
  }

  lemma PokeProt(f: Flat, a: nat, bs: seq<byte>)
    ensures SameProt(f, Poke(f, a, bs))
  {
  }

  lemma SameProtReaches(f: Flat, g: Flat, acc: Access, a: nat, n: nat)
    requires SameProt(f, g)
    ensures Reachable(f, acc, a, n) <==> Reachable(g, acc, a, n)
    ensures Bounded(f) <==> Bounded(g)
  {
    assert forall x :: CanByte(f, acc, x) <==> CanByte(g, acc, x);
  }

  // ---- all or nothing ------------------------------------------------------------------

  /** How far addr lies above base, in 64-bit arithmetic. */
  function Above(base: Word, addr: Word): nat {
    (addr - base + B64) % B64
  }

  predicate StoreWithin(a: Acc, base: Word, n: nat) {
    a.StoreN? && Above(base, a.addr) + a.n <= n
  }

  /** A check of n bytes, then stores inside them. */
  predicate Covered(accs: seq<Acc>, base: Word, n: nat) {
    |accs| > 0 && 0 < n <= PAGE && accs[0] == CheckWrite(base, n)
      && forall k :: 1 <= k < |accs| ==> StoreWithin(accs[k], base, n)
  }

  lemma StoreSucceeds(m: Mem, a: Acc, base: Word, n: nat)
    requires Bounded(m.flat) && 0 < n <= PAGE && StoreWithin(a, base, n) && Reachable(m.flat, Writing, base, n)
    ensures var p := One(Start(m), a); p.fault.None? && p.loaded == [] && SameProt(m.flat, p.mem.flat)
  {
    assert CanByte(m.flat, Writing, base);
    assert Above(base, a.addr) == a.addr - base;
    forall x | a.addr <= x < a.addr + a.n ensures CanByte(m.flat, Writing, x) {
    }
    AccessFaultIff(m.flat, Writing, a.addr, a.n);
    PokeProt(m.flat, a.addr, ToLE(a.v, a.n));
  }

  lemma {:induction false} StoresSucceed(m: Mem, accs: seq<Acc>, base: Word, n: nat, k: nat)
    requires Bounded(m.flat) && Covered(accs, base, n) && Reachable(m.flat, Writing, base, n) && 1 <= k <= |accs|
    ensures var p := Perform(m, accs[..k]); p.fault.None? && p.loaded == [] && SameProt(m.flat, p.mem.flat)
    decreases k
  {
    PerformNext(m, accs, k - 1);
    if k == 1 {
      WriteCheckIff(m.flat, base, n);
    } else {
      StoresSucceed(m, accs, base, n, k - 1);
      var p := Perform(m, accs[..k - 1]);
      SameProtReaches(m.flat, p.mem.flat, Writing, base, n);
      StoreSucceeds(p.mem, accs[k - 1], base, n);
    }
  }

  /** After the check, no later store of the instruction can fault. */
  lemma CoveredAtomic(m: Mem, accs: seq<Acc>, base: Word, n: nat)
    requires Bounded(m.flat) && Covered(accs, base, n)
    ensures Perform(m, accs).fault.Some? ==> Perform(m, accs).mem == m
    ensures Perform(m, accs).fault.None? <==> Reachable(m.flat, Writing, base, n)
  {
    PerformNext(m, accs, 0);
    WriteCheckIff(m.flat, base, n);
    if WriteCheck(m.flat, base, n).Some? {
      PerformSplit(m, accs, 1);
    } else {
      StoresSucceed(m, accs, base, n, |accs|);
      assert accs[..|accs|] == accs;
    }
  }

  predicate NoWrites(accs: seq<Acc>) {
    forall k :: 0 <= k < |accs| ==> !accs[k].StoreN?
  }

  lemma {:induction false} ReadsKeep(m: Mem, accs: seq<Acc>)
    requires NoWrites(accs)
    ensures Perform(m, accs).mem.flat == m.flat
  {
    if |accs| > 0 {
      ReadsKeep(m, accs[..|accs| - 1]);
    }
  }

  predicate IsStore(h: Handler) {
    match h
    case StoreOff | StoreWb | StoreReg | VStoreOff | VStoreWb | VStoreReg | StorePair | VStorePair
       | Stxr | Stxp | DcZva | SimdStoreMulti | Stp64Off
       | Str64Off | Str32Off | Strb64Off | Str64Reg | Str32Reg | Strb64Reg => true
    case _ => false
  }

  predicate Modelled(i: Inst) {
    !i.fn.Other? && (i.fn.SimdLoadMulti? || i.fn.SimdStoreMulti? ==> GoodSimd(i))
  }

  /** The accesses of a store handler: none, one store, or stores covered by a check. */
  ghost predicate StoreShape(accs: seq<Acc>) {
    accs == [] || (|accs| == 1 && accs[0].StoreN?) || exists base, n :: Covered(accs, base, n)
  }

  lemma PairCovered(addr: Word, n: Size, v1: Word, v2: Word)
    ensures AccessSize(n)
      && Covered([CheckWrite(addr, 2 * n), StoreN(addr, n, v1), StoreN(Add(addr, n), n, v2)], addr, 2 * n)
  {
    assert AccessSize(n);
  }

  lemma QuadCovered(addr: Word, v1: Word, v2: Word, v3: Word, v4: Word)
    ensures Covered([CheckWrite(addr, 32), StoreN(addr, 8, v1), StoreN(Add(addr, 8), 8, v2),
      StoreN(Add(addr, 16), 8, v3),
                     StoreN(Add(addr, 24), 8, v4)], addr, 32)
  {
  }

  /** The accesses of a checked run of stores. */
  function CheckedRun(base: Word, n: Size, vals: seq<Word>, total: Span): seq<Acc> {
    [CheckWrite(base, total)] + StoreRun(base, n, vals)
  }

  lemma CheckedRunAt(base: Word, n: Size, vals: seq<Word>, total: Span, k: nat)
    requires k < |vals|
    ensures CheckedRun(base, n, vals, total)[1 + k] == StoreN(Add(base, Times(k, n)), n, vals[k])
  {
    After<Acc>(CheckWrite(base, total), StoreRun(base, n, vals), k);
  }

  lemma RunCovered(base: Word, n: Size, vals: seq<Word>, total: Span)
    requires Times(|vals|, n) == total
    ensures Covered(CheckedRun(base, n, vals, total), base, total)
  {
    var accs := CheckedRun(base, n, vals, total);
    forall k | 1 <= k < |accs| ensures StoreWithin(accs[k], base, total) {
      RunWithin(base, n, vals, total, k - 1);
    }
  }

  lemma RunWithin(base: Word, n: Size, vals: seq<Word>, total: Span, j: nat)
    requires Times(|vals|, n) == total && j < |vals|
    ensures StoreWithin(CheckedRun(base, n, vals, total)[1 + j], base, total)
  {
    CheckedRunAt(base, n, vals, total, j);
    TimesMono(j + 1, |vals|, n);
    StoreInRun(base, n, j, vals[j], total);
  }

  lemma StoreInRun(base: Word, n: Size, j: nat, v: Word, total: Span)
    requires Times(j + 1, n) <= total
    ensures StoreWithin(StoreN(Add(base, Times(j, n)), n, v), base, total)
  {
  }

  lemma StoreShapes(i: Inst, s: Regs, other: Meaning)
    requires IsStore(i.fn) && Modelled(i)
    ensures StoreShape(Handle(i, s, other).accs)
  {
    var accs := Handle(i, s, other).accs;
    match i.fn
    case StorePair =>
      PairCovered(AddrFor(i, s), Sz(i.sz), Low(s.r[i.rd], Sz(i.sz)), Low(s.r[i.ra], Sz(i.sz)));
    case VStorePair =>
      var addr, a, b, n := AddrFor(i, s), V(s, i.rd), V(s, i.ra), Sz(i.sz);
      if i.sz == 16 {
        QuadCovered(addr, a.lo, a.hi, b.lo, b.hi);
      } else {
        PairCovered(addr, n, Low(a.lo, n), Low(b.lo, n));
      }
    case Stxp =>
      PairCovered(s.r[i.rn], Sz(i.sz), Low(s.r[i.rd], Sz(i.sz)), Low(s.r[i.rm], Sz(i.sz)));
    case Stp64Off =>
      PairCovered(AddrOff(i, s), 8, s.r[i.rd], s.r[i.ra]);
    case VStoreOff | VStoreWb | VStoreReg =>
      var v := V(s, i.rd);
      PairCovered(AddrOff(i, s), 8, v.lo, v.hi);
      PairCovered(AddrFor(i, s), 8, v.lo, v.hi);
      PairCovered(AddrReg(i, s), 8, v.lo, v.hi);
    case DcZva =>
      TimesIs(8, 8);
      RunCovered(DcZvaAddr(i, s), 8, seq<Word>(8, _ => 0), DCZVA_BYTES);
    case SimdStoreMulti =>
      GoodSimdShape(i);
      RunCovered(s.r[i.rn], ShapeOf(i).e, Elements(ShapeOf(i), s, i.rd), Total(i));
    case _ =>
  }

  lemma ShapeAtomic(m: Mem, accs: seq<Acc>)
    requires Bounded(m.flat) && StoreShape(accs)
    ensures Perform(m, accs).fault.Some? ==> Perform(m, accs).mem == m
  {
    if |accs| == 1 && accs[0].StoreN? {
      assert accs == [accs[0]];
      Perform1(m, accs[0]);
    } else if accs != [] {
      var base, n :| Covered(accs, base, n);
      CoveredAtomic(m, accs, base, n);
    }
  }

  lemma LoadRunReads(base: Word, n: Size, count: nat, total: nat)
    ensures NoWrites([CheckRead(base, total)] + LoadRun(base, n, count))
  {
    var accs := [CheckRead(base, total)] + LoadRun(base, n, count);
    forall k | 0 <= k < |accs| ensures !accs[k].StoreN? {
      assert k > 0 ==> accs[k] == LoadRun(base, n, count)[k - 1];
    }
  }

  lemma PlainReads(i: Inst, s: Regs, addr: Word, wb: bool)
    ensures NoWrites(LoadScript(i, s, addr, wb).accs) && NoWrites(VLoadScript(i, s, addr, wb).accs)
    ensures NoWrites(HotLoad(i, s, addr, Sz(i.sz)).accs)
  {
  }

  lemma ListReads(addr: Word, t: nat, n: Size)
    ensures NoWrites([LoadN(addr, n)])
    ensures NoWrites([CheckRead(addr, t), LoadN(addr, n), LoadN(Add(addr, n), n)])
    ensures NoWrites([CheckRead(addr, t), LoadN(addr, n), LoadN(Add(addr, 8), 8), LoadN(Add(addr, 16), 8),
      LoadN(Add(addr, 24), 8)])
  {
  }

  lemma StructureReads(i: Inst, s: Regs)
    requires GoodSimd(i)
    ensures NoWrites(SimdLoadScript(i, s).accs)
  {
    GoodSimdShape(i);
    LoadRunReads(s.r[i.rn], ShapeOf(i).e, Count(ShapeOf(i)), Total(i));
  }

  lemma LoadShapes(i: Inst, s: Regs, other: Meaning)
    requires !IsStore(i.fn) && Modelled(i)
    ensures NoWrites(Handle(i, s, other).accs)
  {
    var n: Size := Sz(i.sz);
    match i.fn
    case LoadOff | VLoadOff => PlainReads(i, s, AddrOff(i, s), false);
    case LoadWb | VLoadWb => PlainReads(i, s, AddrFor(i, s), true);
    case LoadReg | VLoadReg => PlainReads(i, s, AddrReg(i, s), false);
    case LoadPair => ListReads(AddrFor(i, s), 2 * n, n);
    case VLoadPair =>
      ListReads(AddrFor(i, s), 2 * n, n);
      ListReads(AddrFor(i, s), 32, 8);
    case Ldxr => ListReads(s.r[i.rn], 0, n);
    case Ldxp => ListReads(s.r[i.rn], 2 * n, n);
    case SimdLoadMulti => StructureReads(i, s);
    case Ldr64Off => ListReads(AddrOff(i, s), 0, 8);
    case Ldr32Off => ListReads(AddrOff(i, s), 0, 4);
    case Ldrb64Off => ListReads(AddrOff(i, s), 0, 1);
    case Ldr64Reg => ListReads(AddrReg(i, s), 0, 8);
    case Ldr32Reg => ListReads(AddrReg(i, s), 0, 4);
    case Ldrb64Reg => ListReads(AddrReg(i, s), 0, 1);
    case Ldp64Off => ListReads(AddrOff(i, s), 16, 8);
    case Arith(_, _, _, _) | Data(_, _) => assert NoWrites([]);
    case Jump(_) | Clrex | Nop => assert NoWrites([]);
  }

  lemma StoreRegs(i: Inst, s: Regs, other: Meaning, l: seq<Word>)
    requires IsStore(i.fn) && Modelled(i)
    ensures var sc := Handle(i, s, other); sc.done(l).Next? && sc.fault(l) == s.(exclValid := sc.fault(l).exclValid)
  {
  }

  /** A store instruction that faults leaves memory as it was, and no hook has been called; of the registers only
      the exclusive monitor may have been cleared. A load instruction changes no byte in any case. */
  lemma AllOrNothing(i: Inst, s: Regs, other: Meaning, m: Mem)
    requires Modelled(i) && Bounded(m.flat)
    ensures var (r, m', stop) := RunScript(Handle(i, s, other), s, m);
      && (IsStore(i.fn) && stop.Some? ==> m' == m && stop.value.Faulted? && r == s.(exclValid := r.exclValid))
      && (!IsStore(i.fn) ==> m'.flat == m.flat)
  {
    var sc := Handle(i, s, other);
    if IsStore(i.fn) {
      StoreShapes(i, s, other);
      ShapeAtomic(m, sc.accs);
      StoreRegs(i, s, other, Perform(m, sc.accs).loaded);
    } else {
      LoadShapes(i, s, other);
      ReadsKeep(m, sc.accs);
    }
  }

  // ---- reading back ----------------------------------------------------------------------------------

  lemma StoreReaches(m: Mem, a: Word, n: Size, v: Word)
    requires Bounded(m.flat) && Store(m, a, n, v).1.None?
    ensures Reachable(m.flat, Writing, a, n) && Mapped(m.flat, a, n) && SameProt(m.flat, Store(m, a, n, v).0.flat)
  {
    assert AccessSize(n);
    AccessFaultIff(m.flat, Writing, a, n);
    PokeProt(m.flat, a, ToLE(v, n));
    forall x | a <= x < a + n ensures HasByte(m.flat, x) {
      assert CanByte(m.flat, Writing, x);
    }
  }

  /** A load of what a store wrote, across a page boundary or not, returns its low bytes; every other byte keeps its
      value. */
  lemma StoreThenLoad(m: Mem, a: Word, n: Size, v: Word)
    requires Bounded(m.flat) && Store(m, a, n, v).1.None? && Reachable(m.flat, Reading, a, n)
    ensures var m' := Store(m, a, n, v).0;
      Load(m', a, n).1 == Ok(v % Pow256(n))
      && forall x: nat :: HasByte(m.flat, x) && !(a <= x < a + n) ==> ByteAt(m'.flat, x) == ByteAt(m.flat, x)
  {
    var m' := Store(m, a, n, v).0;
    StoreReaches(m, a, n, v);
    assert AccessSize(n);
    SameProtReaches(m.flat, m'.flat, Reading, a, n);
    AccessFaultIff(m'.flat, Reading, a, n);
    PeekPoke(m.flat, a, ToLE(v, n));
    FromToLE(v, n);
    forall x: nat | HasByte(m.flat, x) && !(a <= x < a + n) ensures ByteAt(m'.flat, x) == ByteAt(m.flat, x) {
      PokeByte(m.flat, a, ToLE(v, n), x);
    }
  }

  /** A word stored where the program counter points is the instruction executed next, with no flush in between. */
  lemma StoreThenStep(meaning: Meaning, decode: Decoder, s: State, w: Word)
    requires Bounded(s.mem.flat) && s.regs.pc % 4 == 0 && Store(s.mem, s.regs.pc, 4, w).1.None?
    requires Reachable(s.mem.flat, Fetching, s.regs.pc, 4)
    ensures var m := Store(s.mem, s.regs.pc, 4, w).0;
      var (r, m', stop) := RunScript(meaning(decode(w % B32, s.regs.pc), s.regs), s.regs, m);
      Step(meaning, decode, s.(mem := m)) ==
      (State(r, m', if stop.None? then s.icount + 1 else s.icount, s.codeHooks,
        s.codeLog + Calls(s.codeHooks, s.regs.pc, 4, 0)), stop)
  {
    var pc := s.regs.pc;
    StoreReaches(s.mem, pc, 4, w);
    assert CanByte(s.mem.flat, Fetching, pc);
    PeekPoke(s.mem.flat, pc, ToLE(w, 4));
    FromToLE(w, 4);
    Pow256Words();
  }
}
