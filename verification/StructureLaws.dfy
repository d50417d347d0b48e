/** What structure stores write, and that the matching structure load gives the registers back. */
module StructureLaws {
  import opened Words
  import opened Instructions
  import opened FlatMemory
  import opened Lanes
  import opened Machine
  import opened LoadStore
  import opened StructureOps
  import opened StoreLaws
  import opened HotPaths

  // ---- a run of equal stores writes one byte string --------------------------------------

  /** The values in memory order, n bytes each. */
  function Flatten(vals: seq<Word>, n: Size): (bs: seq<byte>)
    ensures |bs| == Times(|vals|, n)
  {
    if |vals| == 0 then [] else Flatten(vals[..|vals| - 1], n) + ToLE(vals[|vals| - 1], n)
  }

  lemma {:induction false} FlattenAt(vals: seq<Word>, n: Size, j: nat)
    requires j < |vals|
    ensures Times(j, n) + n <= Times(|vals|, n)
    ensures Flatten(vals, n)[Times(j, n)..Times(j, n) + n] == ToLE(vals[j], n)
  {
    var k := |vals| - 1;
    if j < k {
      FlattenAt(vals[..k], n, j);
      assert vals[..k][j] == vals[j];
      InPrefix(Flatten(vals[..k], n), ToLE(vals[k], n), Times(j, n), Times(j, n) + n);
    } else {
      assert |Flatten(vals[..k], n)| == Times(k, n);
    }
  }

  lemma InPrefix<T>(a: seq<T>, b: seq<T>, i: nat, j: nat)
    requires i <= j <= |a|
    ensures (a + b)[i..j] == a[i..j]
  {
  }

  /** Bytes stored are read back, and so is any part of them. */
  lemma PeekPart(f: Flat, base: nat, bs: seq<byte>, off: nat, n: nat)
    requires off + n <= |bs| && Mapped(f, base, |bs|)
    ensures Peek(Poke(f, base, bs), base + off, n) == bs[off..off + n]
  {
    var got := Peek(Poke(f, base, bs), base + off, n);
    forall k | 0 <= k < n ensures got[k] == bs[off..off + n][k] {
      assert HasByte(f, base + off + k);
      PokeByte(f, base, bs, base + off + k);
    }
  }

  lemma ReachIsMapped(f: Flat, acc: Access, a: nat, n: nat)
    requires Reachable(f, acc, a, n)
    ensures Mapped(f, a, n)
  {
    forall x | a <= x < a + n ensures HasByte(f, x) {
      assert CanByte(f, acc, x);
    }
  }

  lemma RunFits(f: Flat, acc: Access, base: Word, n: nat)
    requires Bounded(f) && 0 < n <= PAGE && Reachable(f, acc, base, n)
    ensures base + n < B64
  {
    assert CanByte(f, acc, base);
  }

  /** After the first k stores, memory is as before but for the first k values. */
  lemma {:induction false} RunWrites(m: Mem, base: Word, n: Size, vals: seq<Word>, total: Span, k: nat)
    requires Bounded(m.flat) && total == Times(|vals|, n) && Reachable(m.flat, Writing, base, total) && k <= |vals|
    ensures var p := Perform(m, CheckedRun(base, n, vals, total)[..1 + k]);
      p.fault.None? && p.loaded == [] && p.mem.flat == Poke(m.flat, base, Flatten(vals[..k], n))
    decreases k
  {
    var accs := CheckedRun(base, n, vals, total);
    RunCovered(base, n, vals, total);
    StoresSucceed(m, accs, base, total, 1 + k);
    if k == 0 {
      AfterCheck(m, base, total, accs);
    } else {
      RunWrites(m, base, n, vals, total, k - 1);
      PerformNext(m, accs, k);
      RunFits(m.flat, Writing, base, total);
      WriteNext(m, Perform(m, accs[..k]), base, n, vals, total, k - 1);
    }
  }

  lemma AfterCheck(m: Mem, base: Word, total: Span, accs: seq<Acc>)
    requires |accs| > 0 && accs[0] == CheckWrite(base, total)
    ensures Perform(m, accs[..1]).mem.flat == Poke(m.flat, base, [])
  {
    PerformNext(m, accs, 0);
    PokeNothing(m.flat, base);
  }

  lemma WriteNext(m: Mem, p: Performed, base: Word, n: Size, vals: seq<Word>, total: Span, j: nat)
    requires total == Times(|vals|, n) && base + total < B64 && j < |vals|
    requires p.fault.None? && p.mem.flat == Poke(m.flat, base, Flatten(vals[..j], n))
    ensures var q := Then(p, CheckedRun(base, n, vals, total)[1 + j]);
      q.fault.None? ==> q.mem.flat == Poke(m.flat, base, Flatten(vals[..j + 1], n))
  {
    CheckedRunAt(base, n, vals, total, j);
    TimesMono(j, |vals|, n);
    FlattenNext(vals, n, j);
    NextPart(m, p, base, n, vals[j], Flatten(vals[..j], n), Times(j, n));
  }

  lemma FlattenNext(vals: seq<Word>, n: Size, j: nat)
    requires j < |vals|
    ensures Flatten(vals[..j + 1], n) == Flatten(vals[..j], n) + ToLE(vals[j], n)
  {
    assert vals[..j + 1][..j] == vals[..j];
  }

  lemma NextPart(m: Mem, p: Performed, base: Word, n: Size, v: Word, front: seq<byte>, off: nat)
    requires |front| == off && base + off < B64 && p.fault.None? && p.mem.flat == Poke(m.flat, base, front)
    ensures var q := Then(p, StoreN(Add(base, off), n, v));
      q.fault.None? ==> q.mem.flat == Poke(m.flat, base, front + ToLE(v, n))
  {
    PokePoke(m.flat, base, front, ToLE(v, n));
  }

  lemma WholeRun(m: Mem, base: Word, n: Size, vals: seq<Word>, total: Span)
    requires Bounded(m.flat) && total == Times(|vals|, n) && Perform(m, CheckedRun(base, n, vals, total)).fault.None?
    ensures Reachable(m.flat, Writing, base, total)
    ensures Perform(m, CheckedRun(base, n, vals, total)).mem.flat == Poke(m.flat, base, Flatten(vals, n))
  {
    RunCovered(base, n, vals, total);
    CoveredAtomic(m, CheckedRun(base, n, vals, total), base, total);
    RunWrites(m, base, n, vals, total, |vals|);
    assert vals[..|vals|] == vals;
    assert CheckedRun(base, n, vals, total)[..1 + |vals|] == CheckedRun(base, n, vals, total);
  }

  // ---- a run of loads reads it back ---------------------------------------------------------

  function ReadRun(base: Word, n: Size, count: nat, total: nat): seq<Acc> {
    [CheckRead(base, total)] + LoadRun(base, n, count)
  }

  lemma ReadRunAt(base: Word, n: Size, count: nat, total: nat, k: nat)
    requires k < count
    ensures ReadRun(base, n, count, total)[1 + k] == LoadN(Add(base, Times(k, n)), n)
  {
    After<Acc>(CheckRead(base, total), LoadRun(base, n, count), k);
  }

  predicate Fit(vals: seq<Word>, n: Size) {
    forall j :: 0 <= j < |vals| ==> vals[j] < Pow256(n)
  }

  /** The check before the loads touches only the first byte. */
  lemma CheckReads(m: Mem, base: Word, n: Size, count: nat, total: Span)
    requires Reachable(m.flat, Reading, base, total)
    ensures var p := Perform(m, ReadRun(base, n, count, total)[..1]);
      p.fault.None? && p.mem.flat == m.flat && p.loaded == []
  {
    var accs := ReadRun(base, n, count, total);
    PerformNext(m, accs, 0);
    assert CanByte(m.flat, Reading, base);
    assert Perform(m, accs[..0]) == Start(m);
  }

  /** The values a run of loads gets from memory that holds their bytes. */
  lemma {:induction false} RunReads(m: Mem, f: Flat, base: Word, n: Size, vals: seq<Word>, total: Span, k: nat)
    requires Bounded(f) && m.flat == Poke(f, base, Flatten(vals, n)) && total == Times(|vals|, n) && k <= |vals|
    requires Reachable(m.flat, Reading, base, total) && Fit(vals, n)
    ensures var p := Perform(m, ReadRun(base, n, |vals|, total)[..1 + k]);
      p.fault.None? && p.mem.flat == m.flat && p.loaded == vals[..k]
    decreases k
  {
    var accs := ReadRun(base, n, |vals|, total);
    if k == 0 {
      CheckReads(m, base, n, |vals|, total);
    } else {
      PerformNext(m, accs, k);
      RunReads(m, f, base, n, vals, total, k - 1);
      ReadRunAt(base, n, |vals|, total, k - 1);
      ElementReads(m, f, base, n, vals, total, k - 1);
      ReadNext(m, Perform(m, accs[..k]), Add(base, Times(k - 1, n)), n, vals, k);
    }
  }

  lemma ReadNext(m: Mem, p: Performed, a: Word, n: Size, vals: seq<Word>, k: nat)
    requires 0 < k <= |vals| && p.fault.None? && p.mem.flat == m.flat && p.loaded == vals[..k - 1]
    requires Load(m, a, n).1 == Ok(vals[k - 1])
    ensures var q := Then(p, LoadN(a, n)); q.fault.None? && q.mem.flat == m.flat && q.loaded == vals[..k]
  {
    assert vals[..k] == vals[..k - 1] + [vals[k - 1]];
    assert Load(p.mem, a, n).1 == Load(m, a, n).1;
  }

  lemma ElementReads(m: Mem, f: Flat, base: Word, n: Size, vals: seq<Word>, total: Span, j: nat)
    requires Bounded(f) && m.flat == Poke(f, base, Flatten(vals, n)) && total == Times(|vals|, n) && j < |vals|
    requires Reachable(m.flat, Reading, base, total) && vals[j] < Pow256(n)
    ensures Load(m, Add(base, Times(j, n)), n).1 == Ok(vals[j])
  {
    var bs, off := Flatten(vals, n), Times(j, n);
    PokeProt(f, base, bs);
    SameProtReaches(f, m.flat, Reading, base, total);
    RunFits(m.flat, Reading, base, total);
    ReachIsMapped(f, Reading, base, total);
    FlattenAt(vals, n, j);
    PeekPart(f, base, bs, off, n);
    PartReachable(m.flat, base, total, off, n);
    PieceReads(m, base, off, n, vals[j]);
  }

  lemma PieceReads(m: Mem, base: Word, off: nat, n: Size, v: Word)
    requires Bounded(m.flat) && base + off < B64 && Reachable(m.flat, Reading, base + off, n) && v < Pow256(n)
    requires Peek(m.flat, base + off, n) == ToLE(v, n)
    ensures Load(m, Add(base, off), n).1 == Ok(v)
  {
    assert AccessSize(n);
    AccessFaultIff(m.flat, Reading, base + off, n);
    FromToLE(v, n);
    Fits(v, Pow256(n));
  }

  lemma PartReachable(f: Flat, base: nat, total: nat, off: nat, n: nat)
    requires Reachable(f, Reading, base, total) && off + n <= total
    ensures Reachable(f, Reading, base + off, n)
  {
    forall x | base + off <= x < base + off + n ensures CanByte(f, Reading, x) {
    }
  }

  // ---- the registers gathered ------------------------------------------------------------------

  lemma IndexOfElement(p: Shape, j: nat)
    requires GoodShape(p) && j < Count(p)
    ensures RegOf(p, j) < p.regs && LoadStore.LaneOf(p, j) < p.lanes
      && Index(p, RegOf(p, j), LoadStore.LaneOf(p, j)) == j
  {
    TimesIs(p.regs, p.lanes);
    if p.contiguous {
      QuotientBelow(j, p.lanes, p.regs);
    } else {
      QuotientBelow(j, p.regs, p.lanes);
    }
  }

  lemma QuotientBelow(j: nat, d: nat, q: nat)
    requires d > 0 && j < d * q
    ensures j / d < q && j == Times(j / d, d) + j % d && j % d < d
  {
    TimesIs(j / d, d);
    if j / d >= q {
      MulMono(d, q, j / d);
    }
  }

  /** After n elements a lane holds the element that was put there, if it is among them, and zero otherwise. */
  lemma {:induction false} GatheredLane(p: Shape, l: seq<Word>, n: nat, r: nat, x: nat)
    requires GoodShape(p) && n <= Count(p) <= |l| && r < p.regs && Offset(p.e, x) < 16
    ensures GetLane(Gather(p, l, n)[r], p.e, x) ==
      if x < p.lanes && Index(p, r, x) < n then At(l, Index(p, r, x)) % Pow256(p.e) else 0
    decreases n
  {
    if n == 0 {
      ZeroLane(p.e, x);
    } else {
      GatheredLane(p, l, n - 1, r, x);
      GatherStep(p, l, n - 1, r, x);
    }
  }

  lemma GatherStep(p: Shape, l: seq<Word>, j: nat, r: nat, x: nat)
    requires GoodShape(p) && j < Count(p) <= |l| && r < p.regs && Offset(p.e, x) < 16
    ensures GetLane(Gather(p, l, j + 1)[r], p.e, x) ==
      if x < p.lanes && Index(p, r, x) == j then At(l, j) % Pow256(p.e) else GetLane(Gather(p, l, j)[r], p.e, x)
  {
    var r', x' := RegOf(p, j), LoadStore.LaneOf(p, j);
    IndexOfElement(p, j);
    if x < p.lanes {
      ElementIndex(p, r, x);
    }
    LaneInside(p, x');
    assert Gather(p, l, j + 1)[r] == if r' == r then SetLane(Gather(p, l, j)[r], p.e, x', At(l, j))
      else Gather(p, l, j)[r];
    GetSetLane(Gather(p, l, j)[r], p.e, x', At(l, j), x);
  }

  lemma LaneInside(p: Shape, x: nat)
    requires GoodShape(p) && x < p.lanes
    ensures Offset(p.e, x) < 16
  {
  }

  lemma LaneFits(v: Vec, e: Size, x: nat)
    ensures GetLane(v, e, x) < Pow256(e)
  {
  }

  lemma GatherElements(p: Shape, s: Regs, rd: nat, amt: nat, r: nat)
    requires GoodShape(p) && (amt == 8 || amt == 16) && Offset(p.e, p.lanes) == amt && r < p.regs
    ensures Gather(p, Elements(p, s, rd), Count(p))[r] == Kept(V(s, rd + r), amt)
  {
    var e, v, g := p.e, V(s, rd + r), Gather(p, Elements(p, s, rd), Count(p))[r];
    forall x | x >= 0 && Offset(e, x) < 16 ensures GetLane(g, e, x) == GetLane(Kept(v, amt), e, x) {
      GatheredIsKept(p, s, rd, r, x);
    }
    SameLanes(g, Kept(v, amt), e);
  }

  lemma GatheredIsKept(p: Shape, s: Regs, rd: nat, r: nat, x: nat)
    requires GoodShape(p) && (Offset(p.e, p.lanes) == 8 || Offset(p.e, p.lanes) == 16)
    requires r < p.regs && Offset(p.e, x) < 16
    ensures GetLane(Gather(p, Elements(p, s, rd), Count(p))[r], p.e, x)
      == GetLane(Kept(V(s, rd + r), Offset(p.e, p.lanes)), p.e, x)
  {
    var e, v := p.e, V(s, rd + r);
    GatheredLane(p, Elements(p, s, rd), Count(p), r, x);
    KeptLane(v, e, p.lanes, x);
    if x < p.lanes {
      ElementIndex(p, r, x);
      LaneFits(v, e, x);
      Fits(GetLane(v, e, x), Pow256(e));
    }
  }

  lemma ElementsFit(p: Shape, s: Regs, rd: nat)
    requires GoodShape(p)
    ensures Fit(Elements(p, s, rd), p.e)
  {
    forall j | 0 <= j < Count(p) ensures Elements(p, s, rd)[j] < Pow256(p.e) {
      LaneFits(V(s, rd + RegOf(p, j)), p.e, LoadStore.LaneOf(p, j));
    }
  }

  lemma {:induction false} PutVecsAt(s: Regs, rd: nat, out: seq<Vec>, n: nat, k: nat)
    requires k < n <= |out| && n <= 4
    ensures V(PutVecs(s, rd, out, n), rd + k) == out[k]
  {
    if k < n - 1 {
      PutVecsAt(s, rd, out, n - 1, k);
      assert (rd + k) % 32 != (rd + n - 1) % 32;
    }
  }

  // ---- the theorem ---------------------------------------------------------------------------------

  lemma StoreRan(i: Inst, s: Regs, m: Mem)
    requires GoodSimd(i) && Bounded(m.flat) && RunScript(SimdStoreScript(i, s), s, m).2.None?
    ensures GoodShape(ShapeOf(i))
    ensures RunScript(SimdStoreScript(i, s), s, m).1.flat
      == Poke(m.flat, s.r[i.rn], Flatten(Elements(ShapeOf(i), s, i.rd), ShapeOf(i).e))
  {
    GoodSimdShape(i);
    WholeRun(m, s.r[i.rn], ShapeOf(i).e, Elements(ShapeOf(i), s, i.rd), Total(i));
  }

  lemma LoadRan(i: Inst, s: Regs, m: Mem, f: Flat, vals: seq<Word>) returns (p: Performed)
    requires GoodSimd(i) && GoodShape(ShapeOf(i)) && |vals| == Count(ShapeOf(i)) && Fit(vals, ShapeOf(i).e)
    requires Bounded(f) && m.flat == Poke(f, s.r[i.rn], Flatten(vals, ShapeOf(i).e))
      && Reachable(m.flat, Reading, s.r[i.rn], Total(i))
    ensures p == Perform(m, SimdLoadScript(i, s).accs) && p.fault.None? && p.mem.flat == m.flat && p.loaded == vals
  {
    GoodSimdShape(i);
    SimdLoadAccs(i, s);
    p := WholeRead(m, f, s.r[i.rn], ShapeOf(i).e, vals, Total(i));
  }

  lemma WholeRead(m: Mem, f: Flat, base: Word, n: Size, vals: seq<Word>, total: Span) returns (p: Performed)
    requires Bounded(f) && m.flat == Poke(f, base, Flatten(vals, n)) && total == Times(|vals|, n)
    requires Reachable(m.flat, Reading, base, total) && Fit(vals, n)
    ensures p == Perform(m, ReadRun(base, n, |vals|, total)) && p.fault.None? && p.mem.flat == m.flat
      && p.loaded == vals
  {
    RunReads(m, f, base, n, vals, total, |vals|);
    var accs := ReadRun(base, n, |vals|, total);
    assert accs[..1 + |vals|] == accs && vals[..|vals|] == vals;
    p := Perform(m, accs);
  }

  lemma SimdLoadAccs(i: Inst, s: Regs)
    requires GoodSimd(i) && GoodShape(ShapeOf(i))
    ensures SimdLoadScript(i, s).accs == ReadRun(s.r[i.rn], ShapeOf(i).e, Count(ShapeOf(i)), Total(i))
  {
  }

  lemma LoadEndsIn(i: Inst, s: Regs, m: Mem, p: Performed)
    requires GoodSimd(i) && p == Perform(m, SimdLoadScript(i, s).accs) && p.fault.None?
    ensures RunScript(SimdLoadScript(i, s), s, m) == (SimdLoaded(i, s, p.loaded), p.mem, None)
  {
    SimdLoadCommit(i, s, p.loaded);
    RunIs(SimdLoadScript(i, s), s, m);
  }

  lemma SimdLoadedVecs(i: Inst, s: Regs, l: seq<Word>, r: nat)
    requires GoodSimd(i) && GoodShape(ShapeOf(i)) && r < i.sh
    ensures V(SimdLoaded(i, s, l), i.rd + r) == Gather(ShapeOf(i), l, Count(ShapeOf(i)))[r]
  {
    PutVecsAt(s, i.rd, Gather(ShapeOf(i), l, Count(ShapeOf(i))), i.sh, r);
  }

  /** The r-th register transferred is in s' what it was in s, as far as the transfer is wide. */
  predicate Restored(i: Inst, s: Regs, s': Regs, r: nat) {
    V(s', i.rd + r) == Kept(V(s, i.rd + r), i.amt)
  }

  /** A structure load right after the structure store of the same shape, at the same base, gives back every register
      transferred, whatever the registers held in between; the 64-bit form clears the upper halves. */
  lemma StructureRoundTrip(i: Inst, s: Regs, m: Mem, s2: Regs, m2: Mem) returns (s3: Regs, m3: Mem)
    requires GoodSimd(i) && Bounded(m.flat) && RunScript(SimdStoreScript(i, s), s, m).2.None?
    requires m2.flat == RunScript(SimdStoreScript(i, s), s, m).1.flat && s2.r[i.rn] == s.r[i.rn]
    requires Reachable(m2.flat, Reading, s.r[i.rn], Total(i))
    ensures RunScript(SimdLoadScript(i, s2), s2, m2) == (s3, m3, None) && m3.flat == m2.flat
    ensures forall r :: 0 <= r < i.sh ==> Restored(i, s, s3, r)
  {
    GoodSimdShape(i);
    StoreRan(i, s, m);
    var vals := Elements(ShapeOf(i), s, i.rd);
    ElementsFit(ShapeOf(i), s, i.rd);
    var p := LoadRan(i, s2, m2, m.flat, vals);
    LoadEndsIn(i, s2, m2, p);
    s3, m3 := SimdLoaded(i, s2, vals), p.mem;
    AllRestored(i, s, s2);
  }

  lemma AllRestored(i: Inst, s: Regs, s2: Regs)
    requires GoodSimd(i) && GoodShape(ShapeOf(i))
    ensures forall r :: 0 <= r < i.sh ==> Restored(i, s, SimdLoaded(i, s2, Elements(ShapeOf(i), s, i.rd)), r)
  {
    GoodSimdShape(i);
    var vals := Elements(ShapeOf(i), s, i.rd);
    forall r | 0 <= r < i.sh ensures Restored(i, s, SimdLoaded(i, s2, vals), r) {
      SimdLoadedVecs(i, s2, vals, r);
      GatherElements(ShapeOf(i), s, i.rd, i.amt, r);
    }
  }

  /** DC ZVA zeroes the 64-byte block around its address and touches no other byte. */
  lemma DcZvaZeroes(i: Inst, s: Regs, m: Mem)
    requires Bounded(m.flat)
    ensures var (s', m', stop) := RunScript(DcZvaScript(i, s), s, m);
      stop.None? <==> Reachable(m.flat, Writing, DcZvaAddr(i, s), 64)
    ensures var (s', m', stop) := RunScript(DcZvaScript(i, s), s, m);
      stop.None? ==> s' == Advance(s) && m'.flat == Poke(m.flat, DcZvaAddr(i, s), seq<byte>(64, _ => 0))
  {
    var a, vals := DcZvaAddr(i, s), seq<Word>(8, _ => 0);
    TimesIs(8, 8);
    RunCovered(a, 8, vals, 64);
    CoveredAtomic(m, CheckedRun(a, 8, vals, 64), a, 64);
    if RunScript(DcZvaScript(i, s), s, m).2.None? {
      WholeRun(m, a, 8, vals, 64);
      FlattenZeros(vals);
      assert Flatten(vals, 8) == seq<byte>(64, _ => 0);
    }
  }

  lemma {:induction false} FlattenZeros(vals: seq<Word>)
    requires forall j :: 0 <= j < |vals| ==> vals[j] == 0
    ensures forall k :: 0 <= k < |Flatten(vals, 8)| ==> Flatten(vals, 8)[k] == 0
  {
    if |vals| > 0 {
      FlattenZeros(vals[..|vals| - 1]);
      ZeroBytes(8);
    }
  }

  lemma {:induction false} ZeroBytes(n: nat)
    ensures forall k :: 0 <= k < n ==> ToLE(0, n)[k] == 0
  {
    if n > 0 {
      ZeroBytes(n - 1);
    }
  }
}
