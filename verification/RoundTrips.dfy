/** Stores undone by the loads that mirror them, and what store-exclusives decide. */
module RoundTrips {
  import opened Words
  import opened Instructions
  import opened FlatMemory
  import opened Machine
  import opened LoadStore
  import opened StoreLaws
  import opened StructureLaws

  // ---- pairs and 128-bit registers --------------------------------------------------------

  lemma TwoTimes(n: nat)
    ensures Times(1, n) == n && Times(2, n) == 2 * n && Times(0, n) == 0
  {
  }

  lemma PairRun(a: Word, n: Size, v: Word, w: Word)
    ensures AccessSize(n)
      && [CheckWrite(a, 2 * n), StoreN(a, n, v), StoreN(Add(a, n), n, w)] == CheckedRun(a, n, [v, w], 2 * n)
  {
    assert AccessSize(n);
    TwoTimes(n);
    CheckedRunAt(a, n, [v, w], 2 * n, 0);
    CheckedRunAt(a, n, [v, w], 2 * n, 1);
    assert Add(a, 0) == a;
  }

  lemma PairRead(a: Word, n: Size)
    ensures [CheckRead(a, 2 * n), LoadN(a, n), LoadN(Add(a, n), n)] == ReadRun(a, n, 2, 2 * n)
  {
    TwoTimes(n);
    ReadRunAt(a, n, 2, 2 * n, 0);
    ReadRunAt(a, n, 2, 2 * n, 1);
    assert Add(a, 0) == a;
  }

  lemma LowFitsSize(v: Word, n: Size)
    ensures Low(v, n) < Pow256(n)
  {
  }

  /** Two values stored side by side are loaded back, whatever happened in between to anything but those bytes. */
  lemma TwoValues(m: Mem, m2: Mem, a: Word, n: Size, v: Word, w: Word) returns (p: Performed)
    requires Bounded(m.flat) && AccessSize(n) && v < Pow256(n) && w < Pow256(n)
    requires var st := Perform(m, [CheckWrite(a, 2 * n), StoreN(a, n, v), StoreN(Add(a, n), n, w)]);
      st.fault.None? && m2.flat == st.mem.flat
    requires Reachable(m2.flat, Reading, a, 2 * n)
    ensures p == Perform(m2, [CheckRead(a, 2 * n), LoadN(a, n), LoadN(Add(a, n), n)])
    ensures p.fault.None? && p.mem.flat == m2.flat && p.loaded == [v, w]
  {
    TwoTimes(n);
    PairRun(a, n, v, w);
    PairRead(a, n);
    WholeRun(m, a, n, [v, w], 2 * n);
    p := WholeRead(m2, m.flat, a, n, [v, w], 2 * n);
  }

  /** A load pair i2 from where a store pair i of the same size wrote gives its registers the low bytes stored, in every
      addressing mode of either: a pre-indexed push and a post-indexed pop, for instance. */
  lemma PairRoundTrip(i: Inst, s: Regs, m: Mem, i2: Inst, s2: Regs, m2: Mem)
    requires Bounded(m.flat) && Sz(i2.sz) == Sz(i.sz) && i2.sh != EXT_SIGN && AddrFor(i2, s2) == AddrFor(i, s)
    requires RunScript(StorePairScript(i, s), s, m).2.None? && m2.flat == RunScript(StorePairScript(i, s), s, m).1.flat
    requires Reachable(m2.flat, Reading, AddrFor(i, s), 2 * Sz(i.sz))
    ensures var n := Sz(i.sz);
      var v, w := Low(s.r[i.rd], n), Low(s.r[i.ra], n);
      var (s3, m3, e) := RunScript(LoadPairScript(i2, s2), s2, m2);
      e.None? && m3.flat == m2.flat && s3 == LoadPairCommit(i2, s2, v, w) && TwoGiven(i2, s3, v, w)
  {
    var n: Size := Sz(i.sz);
    assert AccessSize(n);
    LowFitsSize(s.r[i.rd], n);
    LowFitsSize(s.r[i.ra], n);
    var p := TwoValues(m, m2, AddrFor(i, s), n, Low(s.r[i.rd], n), Low(s.r[i.ra], n));
    RunIs(LoadPairScript(i2, s2), s2, m2);
    CommitPair(i2, s2, Low(s.r[i.rd], n), Low(s.r[i.ra], n));
  }

  /** Both targets hold their values, where they are two registers and neither is a base that moves. */
  predicate TwoGiven(i: Inst, s: Regs, v: Word, w: Word) {
    var moves := i.cond == MODE_PRE || i.cond == MODE_POST;
    (i.rd != i.ra && !(moves && i.rn == i.rd) ==> s.r[i.rd] == v) && (!(moves && i.rn == i.ra) ==> s.r[i.ra] == w)
  }

  lemma CommitPair(i: Inst, s: Regs, v: Word, w: Word)
    requires i.sh != EXT_SIGN
    ensures TwoGiven(i, LoadPairCommit(i, s, v, w), v, w)
  {
  }

  /** A 128-bit register stored and loaded at the same address comes back whole, with or without write-back. */
  lemma VectorRoundTrip(i: Inst, s: Regs, m: Mem, i2: Inst, s2: Regs, m2: Mem, a: Word, wb: bool, wb2: bool)
    requires Bounded(m.flat) && i.sz == 16 && i2.sz == 16
    requires RunScript(VStoreScript(i, s, a, wb), s, m).2.None?
      && m2.flat == RunScript(VStoreScript(i, s, a, wb), s, m).1.flat
    requires Reachable(m2.flat, Reading, a, 16)
    ensures var (s3, m3, e) := RunScript(VLoadScript(i2, s2, a, wb2), s2, m2);
      e.None? && m3.flat == m2.flat && V(s3, i2.rd) == V(s, i.rd)
  {
    Pow256Words();
    var v := V(s, i.rd);
    var p := TwoValues(m, m2, a, 8, v.lo, v.hi);
    RunIs(VLoadScript(i2, s2, a, wb2), s2, m2);
  }

  // ---- exclusives ------------------------------------------------------------------------------

  /** A store-exclusive succeeds only against a monitor set for its address and size; it then stores and reports 0.
      Otherwise it touches no memory, not even to fault, and reports 1. The monitor is clear afterwards in every
      case. */
  lemma StoreExclusiveDecides(i: Inst, s: Regs, m: Mem)
    ensures var ok := s.exclValid && s.exclAddr == s.r[i.rn] && s.exclSize == i.sz;
      var (r, m', e) := RunScript(StxrScript(i, s), s, m);
      && !r.exclValid
      && (!ok ==> e.None? && m' == m && r.r[i.ra] == 1)
      && (ok ==> (m', e) == (Store(m, s.r[i.rn], Sz(i.sz), Low(s.r[i.rd], Sz(i.sz))).0,
                             if Store(m, s.r[i.rn], Sz(i.sz), Low(s.r[i.rd], Sz(i.sz))).1.None? then None
                             else Some(Faulted(Store(m, s.r[i.rn], Sz(i.sz), Low(s.r[i.rd], Sz(i.sz))).1.value))))
      && (ok && e.None? ==> r.r[i.ra] == 0)
  {
    Perform1(m, StoreN(s.r[i.rn], Sz(i.sz), Low(s.r[i.rd], Sz(i.sz))));
  }

  /** A load-exclusive that succeeds arms the monitor for exactly the store-exclusive of its address and size. */
  lemma LoadExclusiveArms(i: Inst, j: Inst, s: Regs, m: Mem)
    requires RunScript(LdxrScript(i, s), s, m).2.None?
    ensures var r := RunScript(LdxrScript(i, s), s, m).0;
      ExclusiveOk(r, r.r[j.rn], j.sz) <==> r.r[j.rn] == s.r[i.rn] && j.sz == i.sz
  {
  }

  /** The second of two store-exclusives with no load-exclusive between them fails. */
  lemma ExclusiveOnlyOnce(i: Inst, j: Inst, s: Regs, m: Mem, m2: Mem)
    requires RunScript(StxrScript(i, s), s, m).2.None?
    ensures var r := RunScript(StxrScript(i, s), s, m).0;
      RunScript(StxrScript(j, r), r, m2).0.r[j.ra] == 1 && RunScript(StxrScript(j, r), r, m2).1 == m2
  {
    StoreExclusiveDecides(i, s, m);
    var r := RunScript(StxrScript(i, s), s, m).0;
    StoreExclusiveDecides(j, r, m2);
  }
}
