/** The specialised load and store handlers against the generic ones they replace. */
module HotPaths {
  import opened Words
  import opened Instructions
  import opened FlatMemory
  import opened Machine
  import opened LoadStore

  /** A specialised load does what the generic zero-extending load does. */
  lemma HotLoadIsLoad(i: Inst, s: Regs, a: Word, m: Mem)
    requires i.sh == 0
    ensures RunScript(HotLoad(i, s, a, Sz(i.sz)), s, m) == RunScript(LoadScript(i, s, a, false), s, m)
  {
    SameRuns(HotLoad(i, s, a, Sz(i.sz)), LoadScript(i, s, a, false), s, m);
  }

  /** Scripts with the same accesses, and outcomes that agree on the values these load. */
  lemma SameRuns(p: Script, q: Script, s: Regs, m: Mem)
    requires p.accs == q.accs
    requires var l := Perform(m, p.accs).loaded; p.done(l) == q.done(l) && p.fault(l) == q.fault(l)
    ensures RunScript(p, s, m) == RunScript(q, s, m)
  {
  }

  /** The bytes stored depend only on the low n bytes of the value. */
  lemma LowBytes(v: Word, n: Size)
    ensures ToLE(Low(v, n), n) == ToLE(v, n)
  {
    assert AccessSize(n);
    FromToLE(v, n);
    ToFromLE(ToLE(v, n));
  }

  lemma {:induction false} CallsWatched(hs: seq<Hook>, addr: nat, n: nat, v: nat, w: nat)
    ensures Calls(hs, addr, n, v) == Calls(hs, addr, n, w)
      <==> v == w || forall k :: 0 <= k < |hs| ==> !Watches(hs[k], addr)
    ensures |Calls(hs, addr, n, v)| == |Calls(hs, addr, n, w)|
  {
    if |hs| > 0 {
      var k := |hs| - 1;
      CallsWatched(hs[..k], addr, n, v, w);
      var a, b := Calls(hs[..k], addr, n, v), Calls(hs[..k], addr, n, w);
      if Watches(hs[k], addr) {
        assert (a + [Event(hs[k].id, addr, n, v)])[|a|] == Event(hs[k].id, addr, n, v);
        assert (b + [Event(hs[k].id, addr, n, w)])[|b|] == Event(hs[k].id, addr, n, w);
      } else {
        assert forall j :: 0 <= j < k ==> hs[..k][j] == hs[j];
        assert a + [] == a && b + [] == b;
      }
    }
  }

  lemma SameSuffix<T>(l: seq<T>, a: seq<T>, b: seq<T>)
    requires l + a == l + b
    ensures a == b
  {
    assert (l + a)[|l|..] == a && (l + b)[|l|..] == b;
  }

  /** A specialised store ends in the same registers, stop and bytes as the generic one. What the write hooks are told
      is the same exactly when the register fits the access, the store faults, or no hook watches the address. */
  lemma HotStoreIsStore(i: Inst, s: Regs, a: Word, m: Mem)
    ensures var n, v := Sz(i.sz), s.r[i.rd];
      var (r1, m1, e1) := RunScript(HotStore(i, s, a, n), s, m);
      var (r2, m2, e2) := RunScript(StoreScript(i, s, a, false), s, m);
      && r1 == r2 && e1 == e2 && m1 == m2.(log := m1.log)
      && (m1 == m2 <==> v < Pow256(n) || AccessFault(m.flat, Writing, a, n).Some?
                        || forall k :: 0 <= k < |m.whooks| ==> !Watches(m.whooks[k], a))
  {
    var n: Size := Sz(i.sz);
    var v := s.r[i.rd];
    LowBytes(v, n);
    Perform1(m, StoreN(a, n, v));
    Perform1(m, StoreN(a, n, Low(v, n)));
    CallsWatched(m.whooks, a, n, v, Low(v, n));
    if m.log + Calls(m.whooks, a, n, v) == m.log + Calls(m.whooks, a, n, Low(v, n)) {
      SameSuffix(m.log, Calls(m.whooks, a, n, v), Calls(m.whooks, a, n, Low(v, n)));
    }
    LowFits(v, n);
  }

  lemma LowFits(v: Word, n: Size)
    ensures Low(v, n) == v <==> v < Pow256(n)
  {
    Fits(v, Pow256(n));
  }

  lemma Fits(v: nat, p: nat)
    requires p > 0
    ensures v % p == v <==> v < p
  {
    if v < p {
      DivModUnique(v, p, 0, v);
    }
  }

  /** A register that does not fit: the two stores write the same byte and call the hook with different values. */
  lemma HotStoreHookDiffers(i: Inst, s: Regs, a: Word, m: Mem)
    requires i.sz == 1 && s.r[i.rd] == 0x100 && AccessFault(m.flat, Writing, a, 1).None?
      && m.whooks == [Hook(0, 0, B64 - 1)]
    ensures RunScript(HotStore(i, s, a, 1), s, m).1.log == m.log + [Event(0, a, 1, 0x100)]
    ensures RunScript(StoreScript(i, s, a, false), s, m).1.log == m.log + [Event(0, a, 1, 0)]
  {
    Perform1(m, StoreN(a, 1, 0x100));
    Perform1(m, StoreN(a, 1, Low(s.r[i.rd], 1)));
    assert Calls([], a, 1, 0x100) + [Event(0, a, 1, 0x100)] == [Event(0, a, 1, 0x100)];
    assert Calls([], a, 1, 0) + [Event(0, a, 1, 0)] == [Event(0, a, 1, 0)];
    assert Calls(m.whooks, a, 1, 0x100) == [Event(0, a, 1, 0x100)];
    assert Calls(m.whooks, a, 1, 0) == [Event(0, a, 1, 0)];
    assert Low(0x100, 1) == 0;
  }

  /** The specialised pair store is the generic one. */
  lemma Stp64IsStorePair(i: Inst, s: Regs, m: Mem)
    requires i.cond == MODE_OFF && i.sz == 8
    ensures RunScript(Stp64Script(i, s), s, m) == RunScript(StorePairScript(i, s), s, m)
  {
    assert Low(s.r[i.rd], 8) == s.r[i.rd] && Low(s.r[i.ra], 8) == s.r[i.ra];
    assert Stp64Script(i, s).accs == StorePairScript(i, s).accs;
  }

  /** The specialised pair load is the generic one when nothing faults. When the second load faults, memory and stop
      agree but the first register has already been assigned. */
  lemma Ldp64IsLoadPair(i: Inst, s: Regs, m: Mem)
    requires i.cond == MODE_OFF && i.sz == 8 && i.sh != EXT_SIGN
    ensures var (r1, m1, e1) := RunScript(Ldp64Script(i, s), s, m);
      var (r2, m2, e2) := RunScript(LoadPairScript(i, s), s, m);
      m1 == m2 && e1 == e2 && (e1.None? ==> r1 == r2) && (e1.Some? ==> r2 == s && r1 == SetR(s, i.rd, r1.r[i.rd]))
  {
    var a, p := Ldp64Script(i, s), LoadPairScript(i, s);
    assert a.accs == p.accs;
    var l := Perform(m, a.accs).loaded;
    PairCommits(i, s, l);
    SameReg(s, i.rd);
    RunIs(a, s, m);
    RunIs(p, s, m);
  }

  lemma PairCommits(i: Inst, s: Regs, l: seq<Word>)
    requires i.cond == MODE_OFF && i.sz == 8 && i.sh != EXT_SIGN
    ensures Ldp64Script(i, s).done(l) == LoadPairScript(i, s).done(l)
    ensures LoadPairScript(i, s).fault(l) == s
    ensures Ldp64Script(i, s).fault(l) == s || Ldp64Script(i, s).fault(l) == SetR(s, i.rd, At(l, 0))
  {
    SameCommit(i, s, At(l, 0), At(l, 1));
  }

  lemma SameCommit(i: Inst, s: Regs, v1: Word, v2: Word)
    requires i.cond == MODE_OFF && i.sz == 8 && i.sh != EXT_SIGN
    ensures Ldp64Commit(i, s, v1, v2) == LoadPairCommit(i, s, v1, v2)
  {
  }

  lemma SameReg(s: Regs, k: byte)
    ensures s == SetR(s, k, s.r[k])
  {
    assert s.r == s.r[k := s.r[k]];
  }
}
