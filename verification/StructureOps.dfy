/** AdvSIMD structure stores and loads as the interpreter runs them: lane loops with a moving address. */
module StructureOps {
  import opened Words
  import opened Instructions
  import opened FlatMemory
  import opened Lanes
  import opened Machine
  import opened LoadStore
  import opened Cpu
  import opened LoadStoreOps

  // ---- the order of transfer -----------------------------------------------------------

  /** The position of lane l of register r in the order of transfer. */
  function Index(p: Shape, r: nat, l: nat): nat
    requires GoodShape(p) && r <= p.regs
  {
    if p.contiguous then Times(r, p.lanes) + l else Times(l, p.regs) + r
  }

  lemma ElementIndex(p: Shape, r: nat, l: nat)
    requires GoodShape(p) && r < p.regs && l < p.lanes
    ensures RegOf(p, Index(p, r, l)) == r && LoadStore.LaneOf(p, Index(p, r, l)) == l && Index(p, r, l) < Count(p)
  {
    TimesMono(r + 1, p.regs, p.lanes);
    if p.contiguous {
      TimesIs(r, p.lanes);
      DivModUnique(Times(r, p.lanes) + l, p.lanes, r, l);
    } else {
      TimesIs(l, p.regs);
      TimesIs(p.regs, p.lanes);
      MulMono(p.regs, l + 1, p.lanes);
      assert p.regs * (l + 1) == p.regs * l + p.regs;
      DivModUnique(Times(l, p.regs) + r, p.regs, l, r);
    }
  }

  /** The stores of a run after a check: vals[j] at addrs[j]. */
  ghost predicate StoresRun(sc: Script, n: Size, vals: seq<Word>, addrs: seq<Word>) {
    |sc.accs| == 1 + |vals| && |addrs| == 1 + |vals|
    && (forall j :: 0 <= j < |vals| ==> StoreIs(sc, vals, addrs, j, n))
    && (forall j :: 0 <= j < |vals| ==> NextOf(addrs, j, n))
  }

  ghost predicate StoreIs(sc: Script, vals: seq<Word>, addrs: seq<Word>, j: nat, n: Size)
    requires j < |vals| && |sc.accs| == 1 + |vals| && |addrs| == 1 + |vals|
  {
    sc.accs[1 + j] == StoreN(addrs[j], n, vals[j])
  }

  ghost predicate NextOf(addrs: seq<Word>, j: nat, n: Size)
    requires j + 1 < |addrs|
  {
    addrs[j + 1] == Add(addrs[j], n)
  }

  function Lane(v: Vec, e: Size, l: nat): Word {
    assert AccessSize(e);
    Pow256Words();
    Pow256Mono(e, 8);
    GetLane(v, e, l)
  }

  function LaneOfReg(s: Regs, rd: nat, r: nat, e: Size, l: nat): Word {
    Lane(V(s, rd + r), e, l)
  }

  /** The first k stores succeeded; the next one is at addr. */
  ghost predicate Stored(sc: Script, m: Mem, addrs: seq<Word>, k: nat, m': Mem, addr: Word) {
    k < |addrs| && addr == addrs[k] && Ran(sc, m, 1 + k, m')
  }

  /** The next store of a run. */
  method StoreNext(c: CPU, ghost sc: Script, ghost m: Mem, ghost vals: seq<Word>, ghost addrs: seq<Word>,
      ghost k: nat, addr: Word, e: Size, v: Word) returns (f: Option<Fault>, next: Word)
    requires c.Valid() && c.Ready() && StoresRun(sc, e, vals, addrs) && k < |vals| && v == vals[k]
    requires Stored(sc, m, addrs, k, c.mem.View(), addr)
    modifies c.mem
    ensures c.Valid()
    ensures f.None? ==> Stored(sc, m, addrs, k + 1, c.mem.View(), next)
    ensures f.Some? ==> Ended(sc, c.regs, m, c.mem.View(), f)
  {
    assert NextOf(addrs, k, e) && StoreIs(sc, vals, addrs, k, e);
    f := StoreElement(c, sc, m, k, addr, e, v);
    next := Add(addr, e);
  }

  ghost predicate LanesOf(vals: seq<Word>, k: nat, v: Vec, e: Size, lanes: nat)
    requires k + lanes <= |vals|
  {
    forall j :: k <= j < k + lanes ==> vals[j] == Lane(v, e, j - k)
  }

  ghost predicate LaneOfEach(vals: seq<Word>, k: nat, s: Regs, rd: nat, regs: nat, e: Size, l: nat)
    requires k + regs <= |vals|
  {
    forall j :: k <= j < k + regs ==> vals[j] == LaneOfReg(s, rd, j - k, e, l)
  }

  /** One register, lane by lane. */
  method StoreLanes(c: CPU, v: Vec, lanes: nat, e: Size, ghost sc: Script, ghost m: Mem, ghost vals: seq<Word>,
      ghost addrs: seq<Word>, ghost k: nat, addr: Word) returns (f: Option<Fault>, next: Word)
    requires c.Valid() && c.Ready() && StoresRun(sc, e, vals, addrs)
    requires k + lanes <= |vals| && LanesOf(vals, k, v, e, lanes)
    requires Stored(sc, m, addrs, k, c.mem.View(), addr)
    modifies c.mem
    ensures c.Valid()
    ensures f.None? ==> Stored(sc, m, addrs, k + lanes, c.mem.View(), next)
    ensures f.Some? ==> Ended(sc, c.regs, m, c.mem.View(), f)
  {
    next, f := addr, None;
    ghost var j := k;
    for l := 0 to lanes
      invariant c.Valid() && f.None? && j == k + l
      invariant Stored(sc, m, addrs, j, c.mem.View(), next)
    {
      assert vals[j] == Lane(v, e, l);
      f, next := StoreNext(c, sc, m, vals, addrs, j, next, e, Lane(v, e, l));
      if f.Some? {
        return;
      }
      j := j + 1;
    }
  }

  /** Lane l of each register in turn. */
  method StoreRow(c: CPU, rd: nat, regs: nat, l: nat, e: Size, ghost sc: Script, ghost m: Mem, ghost vals: seq<Word>,
      ghost addrs: seq<Word>, ghost k: nat, addr: Word) returns (f: Option<Fault>, next: Word)
    requires c.Valid() && c.Ready() && StoresRun(sc, e, vals, addrs)
    requires k + regs <= |vals| && LaneOfEach(vals, k, c.regs, rd, regs, e, l)
    requires Stored(sc, m, addrs, k, c.mem.View(), addr)
    modifies c.mem
    ensures c.Valid()
    ensures f.None? ==> Stored(sc, m, addrs, k + regs, c.mem.View(), next)
    ensures f.Some? ==> Ended(sc, c.regs, m, c.mem.View(), f)
  {
    next, f := addr, None;
    ghost var j := k;
    for r := 0 to regs
      invariant c.Valid() && f.None? && j == k + r
      invariant Stored(sc, m, addrs, j, c.mem.View(), next)
    {
      assert vals[j] == LaneOfReg(c.regs, rd, r, e, l);
      f, next := StoreNext(c, sc, m, vals, addrs, j, next, e, LaneOfReg(c.regs, rd, r, e, l));
      if f.Some? {
        return;
      }
      j := j + 1;
    }
  }

  ghost function Addresses(base: Word, n: Size, count: nat): (a: seq<Word>)
    ensures |a| == count + 1 && a[0] == base
    ensures forall j :: 0 <= j < count ==> NextOf(a, j, n)
  {
    var a := seq(count + 1, j requires 0 <= j <= count => Add(base, Times(j, n)));
    forall j | 0 <= j < count ensures NextOf(a, j, n) {
      assert a[j + 1] == Add(base, Times(j + 1, n));
      NextAddr(base, j, n);
    }
    a
  }

  lemma AddressAt(base: Word, n: Size, count: nat, j: nat)
    requires j <= count
    ensures Addresses(base, n, count)[j] == Add(base, Times(j, n))
  {
  }

  /** What a structure store writes, register by register and lane by lane. */
  ghost predicate Rows(p: Shape, s: Regs, rd: nat, vals: seq<Word>)
    requires GoodShape(p)
  {
    |vals| == Count(p)
    && forall r, l :: 0 <= r < p.regs && 0 <= l < p.lanes ==>
      Index(p, r, l) < |vals| && vals[Index(p, r, l)] == LaneOfReg(s, rd, r, p.e, l)
  }

  lemma ElementsAreRows(p: Shape, s: Regs, rd: nat)
    requires GoodShape(p)
    ensures Rows(p, s, rd, Elements(p, s, rd))
  {
    forall r, l | 0 <= r < p.regs && 0 <= l < p.lanes
      ensures Index(p, r, l) < Count(p) && Elements(p, s, rd)[Index(p, r, l)] == LaneOfReg(s, rd, r, p.e, l) {
      ElementIndex(p, r, l);
    }
  }

  lemma StoreAddresses(i: Inst, s: Regs)
    requires GoodSimd(i) && GoodShape(ShapeOf(i))
    ensures var p := ShapeOf(i);
      StoresRun(SimdStoreScript(i, s), p.e, Elements(p, s, i.rd), Addresses(s.r[i.rn], p.e, Count(p)))
  {
    var p := ShapeOf(i);
    StoreAddressesOf(s.r[i.rn], p.e, Elements(p, s, i.rd), SimdStoreScript(i, s), CheckWrite(s.r[i.rn], Total(i)));
  }

  lemma StoreAddressesOf(base: Word, n: Size, vals: seq<Word>, sc: Script, check: Acc)
    requires sc.accs == [check] + StoreRun(base, n, vals)
    ensures StoresRun(sc, n, vals, Addresses(base, n, |vals|))
  {
    var addrs, stores := Addresses(base, n, |vals|), StoreRun(base, n, vals);
    forall j | 0 <= j < |vals| ensures StoreIs(sc, vals, addrs, j, n) {
      AddressAt(base, n, |vals|, j);
      After(check, stores, j);
    }
  }

  /** Where each row of per elements starts. */
  ghost function Starts(n: nat, per: nat): (a: seq<nat>)
    ensures |a| == n + 1 && a[0] == 0 && a[n] == Times(n, per)
    ensures forall x :: 0 <= x <= n ==> a[x] == Times(x, per)
  {
    seq(n + 1, x requires 0 <= x <= n => Times(x, per))
  }

  /** One register of a contiguous transfer. */
  ghost predicate RegisterRow(starts: seq<nat>, r: nat, lanes: nat, s: Regs, rd: nat, e: Size, vals: seq<Word>)
    requires r + 1 < |starts|
  {
    starts[r + 1] == starts[r] + lanes <= |vals| && LanesOf(vals, starts[r], V(s, rd + r), e, lanes)
  }

  /** One lane of every register of an interleaved transfer. */
  ghost predicate LaneRow(starts: seq<nat>, l: nat, regs: nat, s: Regs, rd: nat, e: Size, vals: seq<Word>)
    requires l + 1 < |starts|
  {
    starts[l + 1] == starts[l] + regs <= |vals| && LaneOfEach(vals, starts[l], s, rd, regs, e, l)
  }

  lemma RegisterRows(p: Shape, s: Regs, rd: nat, vals: seq<Word>, r: nat)
    requires GoodShape(p) && Rows(p, s, rd, vals) && p.contiguous && r < p.regs
    ensures RegisterRow(Starts(p.regs, p.lanes), r, p.lanes, s, rd, p.e, vals)
  {
    TimesMono(r + 1, p.regs, p.lanes);
    var k := Times(r, p.lanes);
    forall j | k <= j < k + p.lanes ensures vals[j] == Lane(V(s, rd + r), p.e, j - k) {
      assert Index(p, r, j - k) == j;
    }
  }

  lemma RowAt(p: Shape, s: Regs, rd: nat, vals: seq<Word>, r: nat, l: nat)
    requires GoodShape(p) && Rows(p, s, rd, vals) && !p.contiguous && r < p.regs && l < p.lanes
    ensures Times(l, p.regs) + r < |vals| && vals[Times(l, p.regs) + r] == LaneOfReg(s, rd, r, p.e, l)
  {
    assert Index(p, r, l) == Times(l, p.regs) + r;
  }

  lemma LaneRows(p: Shape, s: Regs, rd: nat, vals: seq<Word>, l: nat)
    requires GoodShape(p) && Rows(p, s, rd, vals) && !p.contiguous && l < p.lanes
    ensures LaneRow(Starts(p.lanes, p.regs), l, p.regs, s, rd, p.e, vals)
  {
    var starts, k := Starts(p.lanes, p.regs), Times(l, p.regs);
    assert starts[l] == k && starts[l + 1] == Times(l + 1, p.regs) == k + p.regs;
    RowAt(p, s, rd, vals, p.regs - 1, l);
    forall j | k <= j < k + p.regs ensures vals[j] == LaneOfReg(s, rd, j - k, p.e, l) {
      RowAt(p, s, rd, vals, j - k, l);
    }
  }

  lemma CountIs(p: Shape)
    requires GoodShape(p)
    ensures Count(p) == Times(p.regs, p.lanes) == Times(p.lanes, p.regs)
  {
    TimesIs(p.regs, p.lanes);
    TimesIs(p.lanes, p.regs);
  }

  /** Register by register. */
  method StoreContiguous(c: CPU, rd: nat, regs: nat, lanes: nat, e: Size, base: Word, ghost sc: Script, ghost m: Mem,
      ghost vals: seq<Word>, ghost addrs: seq<Word>, ghost starts: seq<nat>) returns (f: Option<Fault>)
    requires c.Valid() && c.Ready() && StoresRun(sc, e, vals, addrs) && addrs[0] == base
    requires |starts| == regs + 1 && starts[0] == 0 && starts[regs] == |vals|
    requires forall x :: 0 <= x < regs ==> RegisterRow(starts, x, lanes, c.regs, rd, e, vals)
    requires Ran(sc, m, 1, c.mem.View())
    modifies c.mem
    ensures c.Valid()
    ensures f.None? ==> Ran(sc, m, 1 + |vals|, c.mem.View())
    ensures f.Some? ==> Ended(sc, c.regs, m, c.mem.View(), f)
  {
    var addr := base;
    f := None;
    ghost var k := 0;
    for r := 0 to regs
      invariant c.Valid() && f.None? && k == starts[r] <= |vals|
      invariant Stored(sc, m, addrs, k, c.mem.View(), addr)
    {
      assert RegisterRow(starts, r, lanes, c.regs, rd, e, vals);
      assert k + lanes == starts[r + 1] <= |vals| && LanesOf(vals, k, V(c.regs, rd + r), e, lanes);
      f, addr := StoreLanes(c, V(c.regs, rd + r), lanes, e, sc, m, vals, addrs, k, addr);
      if f.Some? {
        return;
      }
      k := k + lanes;
    }
  }

  /** Lane by lane. */
  method StoreInterleaved(c: CPU, rd: nat, regs: nat, lanes: nat, e: Size, base: Word, ghost sc: Script, ghost m: Mem,
      ghost vals: seq<Word>, ghost addrs: seq<Word>, ghost starts: seq<nat>) returns (f: Option<Fault>)
    requires c.Valid() && c.Ready() && StoresRun(sc, e, vals, addrs) && addrs[0] == base
    requires |starts| == lanes + 1 && starts[0] == 0 && starts[lanes] == |vals|
    requires forall x :: 0 <= x < lanes ==> LaneRow(starts, x, regs, c.regs, rd, e, vals)
    requires Ran(sc, m, 1, c.mem.View())
    modifies c.mem
    ensures c.Valid()
    ensures f.None? ==> Ran(sc, m, 1 + |vals|, c.mem.View())
    ensures f.Some? ==> Ended(sc, c.regs, m, c.mem.View(), f)
  {
    var addr := base;
    f := None;
    ghost var k := 0;
    for l := 0 to lanes
      invariant c.Valid() && f.None? && k == starts[l] <= |vals|
      invariant Stored(sc, m, addrs, k, c.mem.View(), addr)
    {
      assert LaneRow(starts, l, regs, c.regs, rd, e, vals);
      assert k + regs == starts[l + 1] <= |vals| && LaneOfEach(vals, k, c.regs, rd, regs, e, l);
      f, addr := StoreRow(c, rd, regs, l, e, sc, m, vals, addrs, k, addr);
      if f.Some? {
        return;
      }
      k := k + regs;
    }
  }

  method OpSimdStoreMulti(c: CPU, i: Inst) returns (e: Option<Stop>)
    requires c.Valid() && c.Ready() && GoodSimd(i)
    modifies c`regs, c.mem
    ensures c.Valid()
    ensures (c.regs, c.mem.View(), e) == RunScript(SimdStoreScript(i, old(c.regs)), old(c.regs), old(c.mem.View()))
  {
    var s := c.regs;
    ghost var m := c.mem.View();
    var f := StoreStructure(c, i);
    SimdStoreEnds(i, s, m, c.mem.View(), f);
    if f.Some? {
      return Some(Faulted(f.value));
    }
    c.regs := Advance(SimdAdvance(i, c.regs, s.r[i.rn]));
    return None;
  }

  lemma SimdStoreEnds(i: Inst, s: Regs, m: Mem, m': Mem, f: Option<Fault>)
    requires GoodSimd(i)
    requires Ended(SimdStoreScript(i, s), s, m, m', f)
    ensures RunScript(SimdStoreScript(i, s), s, m) ==
      (if f.None? then (Advance(SimdAdvance(i, s, s.r[i.rn])), m', None) else (s, m', Some(Faulted(f.value))))
  {
    SimdStoreCommit(i, s);
    StoreEnds(SimdStoreScript(i, s), s, m, m', f, Advance(SimdAdvance(i, s, s.r[i.rn])));
  }

  lemma SimdStoreCommit(i: Inst, s: Regs)
    requires GoodSimd(i)
    ensures SimdStoreScript(i, s).done([]) == Next(Advance(SimdAdvance(i, s, s.r[i.rn])))
    ensures SimdStoreScript(i, s).fault([]) == s
  {
  }

  lemma StoreEnds(sc: Script, s: Regs, m: Mem, m': Mem, f: Option<Fault>, s': Regs)
    requires sc.done([]) == Next(s') && sc.fault([]) == s && Ended(sc, s, m, m', f)
    ensures RunScript(sc, s, m) == if f.None? then (s', m', None) else (s, m', Some(Faulted(f.value)))
  {
    assert sc.accs[..|sc.accs|] == sc.accs;
    if f.None? {
      AllDone(sc, s, m, Start(m'));
    }
  }

  /** The loops of a structure store leave what its script says. */
  method StoreStructure(c: CPU, i: Inst) returns (f: Option<Fault>)
    requires c.Valid() && c.Ready() && GoodSimd(i)
    modifies c.mem
    ensures c.Valid()
    ensures Ended(SimdStoreScript(i, c.regs), c.regs, old(c.mem.View()), c.mem.View(), f)
  {
    ghost var vals, addrs := SimdStorePlan(i, c.regs);
    var p := ShapeOf(i);
    f := StoreRows(c, i.rd, p, c.regs.r[i.rn], Total(i), SimdStoreScript(i, c.regs), vals, addrs);
  }

  /** A structure store's script in rows. */
  ghost predicate Planned(sc: Script, p: Shape, s: Regs, rd: nat, base: Word, bytes: nat, vals: seq<Word>,
      addrs: seq<Word>)
  {
    GoodShape(p) && 0 < bytes <= 64 && StoresRun(sc, p.e, vals, addrs) && addrs[0] == base
    && sc.accs[0] == CheckWrite(base, bytes)
    && |vals| == Times(p.regs, p.lanes) == Times(p.lanes, p.regs)
    && (p.contiguous ==>
      forall r :: 0 <= r < p.regs ==> RegisterRow(Starts(p.regs, p.lanes), r, p.lanes, s, rd, p.e, vals))
    && (!p.contiguous ==>
      forall l :: 0 <= l < p.lanes ==> LaneRow(Starts(p.lanes, p.regs), l, p.regs, s, rd, p.e, vals))
  }

  lemma SimdStorePlan(i: Inst, s: Regs) returns (vals: seq<Word>, addrs: seq<Word>)
    requires GoodSimd(i)
    ensures Planned(SimdStoreScript(i, s), ShapeOf(i), s, i.rd, s.r[i.rn], Total(i), vals, addrs)
  {
    GoodSimdShape(i);
    var p, base := ShapeOf(i), s.r[i.rn];
    vals, addrs := Elements(p, s, i.rd), Addresses(base, p.e, Count(p));
    ElementsAreRows(p, s, i.rd);
    StoreAddresses(i, s);
    CountIs(p);
    if p.contiguous {
      forall r | 0 <= r < p.regs ensures RegisterRow(Starts(p.regs, p.lanes), r, p.lanes, s, i.rd, p.e, vals) {
        RegisterRows(p, s, i.rd, vals, r);
      }
    } else {
      forall l | 0 <= l < p.lanes ensures LaneRow(Starts(p.lanes, p.regs), l, p.regs, s, i.rd, p.e, vals) {
        LaneRows(p, s, i.rd, vals, l);
      }
    }
  }

  method StoreRows(c: CPU, rd: nat, p: Shape, base: Word, bytes: nat, ghost sc: Script, ghost vals: seq<Word>,
      ghost addrs: seq<Word>) returns (f: Option<Fault>)
    requires c.Valid() && c.Ready() && Planned(sc, p, c.regs, rd, base, bytes, vals, addrs)
    modifies c.mem
    ensures c.Valid()
    ensures Ended(sc, c.regs, old(c.mem.View()), c.mem.View(), f)
  {
    ghost var m := c.mem.View();
    assert sc.accs[..1 + |vals|] == sc.accs;
    f := OpenStore(c, sc, base, bytes);
    if f.None? {
      if p.contiguous {
        f := StoreContiguous(c, rd, p.regs, p.lanes, p.e, base, sc, m, vals, addrs, Starts(p.regs, p.lanes));
      } else {
        f := StoreInterleaved(c, rd, p.regs, p.lanes, p.e, base, sc, m, vals, addrs, Starts(p.lanes, p.regs));
      }
    }
  }

  // ---- structure loads -----------------------------------------------------------------

  /** A run of equal loads after a check. */
  ghost predicate LoadsRun(sc: Script, n: Size, addrs: seq<Word>) {
    |addrs| == |sc.accs| > 0
    && (forall j :: 0 <= j < |addrs| - 1 ==> sc.accs[1 + j] == LoadN(addrs[j], n))
    && (forall j :: 0 <= j < |addrs| - 1 ==> NextOf(addrs, j, n))
  }

  /** A fault changes no register. */
  ghost predicate Unchanged(sc: Script, s: Regs) {
    forall l :: sc.fault(l) == s
  }

  /** The check and the loads so far gave l. */
  ghost predicate Loaded(sc: Script, m: Mem, l: seq<Word>, m': Mem) {
    |l| < |sc.accs| && Perform(m, sc.accs[..1 + |l|]) == Performed(m', l, None)
  }

  /** A load of the script faulted and ended it. */
  ghost predicate Broken(sc: Script, s: Regs, m: Mem, m': Mem, f: Fault) {
    RunScript(sc, s, m) == (s, m', Some(Faulted(f)))
  }

  function Cleared(): seq<Vec> {
    [Vec(0, 0), Vec(0, 0), Vec(0, 0), Vec(0, 0)]
  }

  method LoadElement(c: CPU, ghost sc: Script, ghost m: Mem, ghost l: seq<Word>, addr: Word, n: Size)
    returns (r: Result<Word>)
    requires c.Valid() && c.Ready() && 1 + |l| < |sc.accs| && sc.accs[1 + |l|] == LoadN(addr, n)
      && Unchanged(sc, c.regs)
    requires Loaded(sc, m, l, c.mem.View())
    modifies c.mem
    ensures c.Valid()
    ensures r.Ok? ==> Loaded(sc, m, l + [r.value], c.mem.View())
    ensures r.Err? ==> Broken(sc, c.regs, m, c.mem.View(), r.fault)
  {
    PerformNext(m, sc.accs, 1 + |l|);
    r := c.mem.ReadN(addr, n);
    if r.Err? {
      FaultEnds(sc, c.regs, m, 2 + |l|);
    }
  }

  /** Later elements do not change what the first n gathered. */
  lemma {:induction false} GatherPrefix(p: Shape, l: seq<Word>, v: Word, n: nat)
    requires GoodShape(p) && n <= |l|
    ensures Gather(p, l + [v], n) == Gather(p, l, n)
  {
    if n > 0 {
      GatherPrefix(p, l, v, n - 1);
      assert At(l + [v], n - 1) == At(l, n - 1);
    }
  }

  ghost predicate Gathered(p: Shape, l: seq<Word>, out: seq<Vec>)
    requires GoodShape(p)
  {
    out == Gather(p, l, |l|)
  }

  lemma GatherNext(p: Shape, l: seq<Word>, out: seq<Vec>, r: nat, x: nat, v: Word)
    requires GoodShape(p) && Gathered(p, l, out) && r == RegOf(p, |l|) < 4 && x == LoadStore.LaneOf(p, |l|)
    ensures |out| == 4 && Gathered(p, l + [v], out[r := SetLane(out[r], p.e, x, v)])
  {
    GatherPrefix(p, l, v, |l|);
    assert r % 4 == r;
    GatherOne(p, l + [v], |l|, r, x, v);
  }

  lemma GatherOne(p: Shape, l: seq<Word>, n: nat, r: nat, x: nat, v: Word)
    requires GoodShape(p) && r == RegOf(p, n) % 4 && x == LoadStore.LaneOf(p, n) && v == At(l, n)
    ensures Gather(p, l, n + 1) == Gather(p, l, n)[r := SetLane(Gather(p, l, n)[r], p.e, x, v)]
  {
  }

  /** The elements of one register of a contiguous transfer. */
  ghost predicate RegisterPlaces(p: Shape, starts: seq<nat>, r: nat)
    requires GoodShape(p) && r + 1 < |starts|
  {
    var k := starts[r];
    r < 4 && starts[r + 1] == k + p.lanes
    && forall j :: k <= j < k + p.lanes ==> RegOf(p, j) == r && LoadStore.LaneOf(p, j) == j - k
  }

  /** The elements of one lane of an interleaved transfer. */
  ghost predicate LanePlaces(p: Shape, starts: seq<nat>, x: nat)
    requires GoodShape(p) && x + 1 < |starts|
  {
    var k := starts[x];
    starts[x + 1] == k + p.regs
    && forall j :: k <= j < k + p.regs ==> RegOf(p, j) == j - k && LoadStore.LaneOf(p, j) == x
  }

  lemma RegisterHasPlaces(p: Shape, r: nat)
    requires GoodShape(p) && p.contiguous && r < p.regs
    ensures RegisterPlaces(p, Starts(p.regs, p.lanes), r)
  {
    var k := Times(r, p.lanes);
    forall j | k <= j < k + p.lanes ensures RegOf(p, j) == r && LoadStore.LaneOf(p, j) == j - k {
      ElementIndex(p, r, j - k);
    }
  }

  lemma LaneHasPlaces(p: Shape, x: nat)
    requires GoodShape(p) && !p.contiguous && x < p.lanes
    ensures LanePlaces(p, Starts(p.lanes, p.regs), x)
  {
    var k := Times(x, p.regs);
    forall j | k <= j < k + p.regs ensures RegOf(p, j) == j - k && LoadStore.LaneOf(p, j) == x {
      ElementIndex(p, j - k, x);
    }
  }

  /** The loads so far gave l, gathered in out; the next one is at addr. */
  ghost predicate Along(sc: Script, m: Mem, addrs: seq<Word>, p: Shape, l: seq<Word>, m': Mem, addr: Word,
      out: seq<Vec>)
    requires GoodShape(p)
  {
    |l| < |addrs| && addr == addrs[|l|] && Loaded(sc, m, l, m') && Gathered(p, l, out)
  }

  /** Loads the next element into a lane of a register. */
  method LoadLane(c: CPU, p: Shape, r: nat, x: nat, ghost sc: Script, ghost m: Mem, ghost addrs: seq<Word>,
      addr: Word, before: seq<Vec>, ghost got: seq<Word>)
    returns (f: Option<Fault>, next: Word, out: seq<Vec>, ghost l: seq<Word>)
    requires c.Valid() && c.Ready() && GoodShape(p) && LoadsRun(sc, p.e, addrs) && Unchanged(sc, c.regs)
    requires r < 4 && RegOf(p, |got|) == r && LoadStore.LaneOf(p, |got|) == x && |got| + 1 < |addrs|
    requires Along(sc, m, addrs, p, got, c.mem.View(), addr, before)
    modifies c.mem
    ensures c.Valid()
    ensures f.None? ==> |l| == |got| + 1 && Along(sc, m, addrs, p, l, c.mem.View(), next, out)
    ensures f.Some? ==> Broken(sc, c.regs, m, c.mem.View(), f.value)
  {
    var v := LoadElement(c, sc, m, got, addr, p.e);
    if v.Err? {
      return Some(v.fault), addr, before, got;
    }
    assert NextOf(addrs, |got|, p.e);
    GatherNext(p, got, before, r, x, v.value);
    f, next, out, l := None, Add(addr, p.e), before[r := SetLane(before[r], p.e, x, v.value)], got + [v.value];
  }

  /** One register, lane by lane. */
  method LoadLanes(c: CPU, p: Shape, r: nat, ghost sc: Script, ghost m: Mem, ghost addrs: seq<Word>,
      ghost starts: seq<nat>, addr: Word, before: seq<Vec>, ghost got: seq<Word>)
    returns (f: Option<Fault>, next: Word, out: seq<Vec>, ghost l: seq<Word>)
    requires c.Valid() && c.Ready() && GoodShape(p) && LoadsRun(sc, p.e, addrs) && Unchanged(sc, c.regs)
    requires r + 1 < |starts| && RegisterPlaces(p, starts, r) && starts[r + 1] < |addrs| && |got| == starts[r]
    requires Along(sc, m, addrs, p, got, c.mem.View(), addr, before)
    modifies c.mem
    ensures c.Valid()
    ensures f.None? ==> |l| == starts[r + 1] && Along(sc, m, addrs, p, l, c.mem.View(), next, out)
    ensures f.Some? ==> Broken(sc, c.regs, m, c.mem.View(), f.value)
  {
    f, next, out, l := None, addr, before, got;
    for x := 0 to p.lanes
      invariant c.Valid() && f.None? && |l| == starts[r] + x
      invariant Along(sc, m, addrs, p, l, c.mem.View(), next, out)
    {
      f, next, out, l := LoadLane(c, p, r, x, sc, m, addrs, next, out, l);
      if f.Some? {
        return;
      }
    }
  }

  /** One lane of each register in turn. */
  method LoadRow(c: CPU, p: Shape, x: nat, ghost sc: Script, ghost m: Mem, ghost addrs: seq<Word>,
      ghost starts: seq<nat>, addr: Word, before: seq<Vec>, ghost got: seq<Word>)
    returns (f: Option<Fault>, next: Word, out: seq<Vec>, ghost l: seq<Word>)
    requires c.Valid() && c.Ready() && GoodShape(p) && LoadsRun(sc, p.e, addrs) && Unchanged(sc, c.regs)
    requires x + 1 < |starts| && LanePlaces(p, starts, x) && starts[x + 1] < |addrs| && |got| == starts[x]
    requires Along(sc, m, addrs, p, got, c.mem.View(), addr, before)
    modifies c.mem
    ensures c.Valid()
    ensures f.None? ==> |l| == starts[x + 1] && Along(sc, m, addrs, p, l, c.mem.View(), next, out)
    ensures f.Some? ==> Broken(sc, c.regs, m, c.mem.View(), f.value)
  {
    f, next, out, l := None, addr, before, got;
    for r := 0 to p.regs
      invariant c.Valid() && f.None? && |l| == starts[x] + r
      invariant Along(sc, m, addrs, p, l, c.mem.View(), next, out)
    {
      f, next, out, l := LoadLane(c, p, r, x, sc, m, addrs, next, out, l);
      if f.Some? {
        return;
      }
    }
  }

  method LoadContiguous(c: CPU, p: Shape, base: Word, ghost sc: Script, ghost m: Mem, ghost addrs: seq<Word>,
      ghost starts: seq<nat>) returns (f: Option<Fault>, out: seq<Vec>, ghost l: seq<Word>)
    requires c.Valid() && c.Ready() && GoodShape(p) && LoadsRun(sc, p.e, addrs) && Unchanged(sc, c.regs)
      && addrs[0] == base
    requires |starts| == p.regs + 1 && starts[0] == 0 && (forall x :: 0 <= x <= p.regs ==> starts[x] < |addrs|)
    requires forall x :: 0 <= x < p.regs ==> RegisterPlaces(p, starts, x)
    requires Loaded(sc, m, [], c.mem.View())
    modifies c.mem
    ensures c.Valid()
    ensures f.None? ==> |l| == starts[p.regs] && Loaded(sc, m, l, c.mem.View()) && Gathered(p, l, out)
    ensures f.Some? ==> Broken(sc, c.regs, m, c.mem.View(), f.value)
  {
    var addr := base;
    f, out, l := None, Cleared(), [];
    for x := 0 to p.regs
      invariant c.Valid() && f.None? && |l| == starts[x]
      invariant Along(sc, m, addrs, p, l, c.mem.View(), addr, out)
    {
      assert RegisterPlaces(p, starts, x);
      f, addr, out, l := LoadLanes(c, p, x, sc, m, addrs, starts, addr, out, l);
      if f.Some? {
        return;
      }
    }
  }

  method LoadInterleaved(c: CPU, p: Shape, base: Word, ghost sc: Script, ghost m: Mem, ghost addrs: seq<Word>,
      ghost starts: seq<nat>) returns (f: Option<Fault>, out: seq<Vec>, ghost l: seq<Word>)
    requires c.Valid() && c.Ready() && GoodShape(p) && LoadsRun(sc, p.e, addrs) && Unchanged(sc, c.regs)
      && addrs[0] == base
    requires |starts| == p.lanes + 1 && starts[0] == 0 && (forall x :: 0 <= x <= p.lanes ==> starts[x] < |addrs|)
    requires forall x :: 0 <= x < p.lanes ==> LanePlaces(p, starts, x)
    requires Loaded(sc, m, [], c.mem.View())
    modifies c.mem
    ensures c.Valid()
    ensures f.None? ==> |l| == starts[p.lanes] && Loaded(sc, m, l, c.mem.View()) && Gathered(p, l, out)
    ensures f.Some? ==> Broken(sc, c.regs, m, c.mem.View(), f.value)
  {
    var addr := base;
    f, out, l := None, Cleared(), [];
    for x := 0 to p.lanes
      invariant c.Valid() && f.None? && |l| == starts[x]
      invariant Along(sc, m, addrs, p, l, c.mem.View(), addr, out)
    {
      assert LanePlaces(p, starts, x);
      f, addr, out, l := LoadRow(c, p, x, sc, m, addrs, starts, addr, out, l);
      if f.Some? {
        return;
      }
    }
  }

  /** A structure load's script in rows. */
  ghost predicate LoadPlanned(sc: Script, p: Shape, s: Regs, base: Word, bytes: nat, addrs: seq<Word>)
  {
    GoodShape(p) && 0 < bytes <= 64 && LoadsRun(sc, p.e, addrs) && addrs[0] == base && Unchanged(sc, s)
    && sc.accs[0] == CheckRead(base, bytes)
    && |addrs| == 1 + Times(p.regs, p.lanes) == 1 + Times(p.lanes, p.regs)
    && StartsBelow(Starts(p.regs, p.lanes), |addrs|) && StartsBelow(Starts(p.lanes, p.regs), |addrs|)
    && (p.contiguous ==> forall r :: 0 <= r < p.regs ==> RegisterPlaces(p, Starts(p.regs, p.lanes), r))
    && (!p.contiguous ==> forall x :: 0 <= x < p.lanes ==> LanePlaces(p, Starts(p.lanes, p.regs), x))
  }

  ghost predicate StartsBelow(starts: seq<nat>, n: nat) {
    forall x :: 0 <= x < |starts| ==> starts[x] < n
  }

  lemma StartsAreBelow(n: nat, per: nat)
    ensures StartsBelow(Starts(n, per), 1 + Times(n, per))
  {
    forall x | 0 <= x <= n ensures Starts(n, per)[x] <= Times(n, per) {
      TimesMono(x, n, per);
    }
  }

  lemma SimdLoadPlan(i: Inst, s: Regs) returns (addrs: seq<Word>)
    requires GoodSimd(i)
    ensures LoadPlanned(SimdLoadScript(i, s), ShapeOf(i), s, s.r[i.rn], Total(i), addrs)
  {
    GoodSimdShape(i);
    var p, base := ShapeOf(i), s.r[i.rn];
    addrs := Addresses(base, p.e, Count(p));
    CountIs(p);
    LoadAddresses(i, s);
    StartsAreBelow(p.regs, p.lanes);
    StartsAreBelow(p.lanes, p.regs);
    if p.contiguous {
      forall r | 0 <= r < p.regs ensures RegisterPlaces(p, Starts(p.regs, p.lanes), r) {
        RegisterHasPlaces(p, r);
      }
    } else {
      forall x | 0 <= x < p.lanes ensures LanePlaces(p, Starts(p.lanes, p.regs), x) {
        LaneHasPlaces(p, x);
      }
    }
  }

  lemma LoadAddresses(i: Inst, s: Regs)
    requires GoodSimd(i) && GoodShape(ShapeOf(i))
    ensures var p, sc := ShapeOf(i), SimdLoadScript(i, s);
      LoadsRun(sc, p.e, Addresses(s.r[i.rn], p.e, Count(p))) && Unchanged(sc, s)
      && sc.accs[0] == CheckRead(s.r[i.rn], Total(i))
  {
    RunAddresses(s.r[i.rn], ShapeOf(i).e, Count(ShapeOf(i)), SimdLoadScript(i, s), CheckRead(s.r[i.rn], Total(i)));
  }

  lemma RunAddresses(base: Word, n: Size, count: nat, sc: Script, check: Acc)
    requires sc.accs == [check] + LoadRun(base, n, count)
    ensures LoadsRun(sc, n, Addresses(base, n, count)) && sc.accs[0] == check
  {
    var addrs, loads := Addresses(base, n, count), LoadRun(base, n, count);
    forall j | 0 <= j < count ensures sc.accs[1 + j] == LoadN(addrs[j], n) {
      AddressAt(base, n, count, j);
      After(check, loads, j);
    }
  }

  lemma SimdLoadCommit(i: Inst, s: Regs, l: seq<Word>)
    requires GoodSimd(i)
    ensures SimdLoadScript(i, s).done(l) == Next(SimdLoaded(i, s, l))
  {
  }

  method LoadRows(c: CPU, p: Shape, base: Word, bytes: nat, ghost sc: Script, ghost addrs: seq<Word>)
    returns (f: Option<Fault>, out: seq<Vec>, ghost l: seq<Word>)
    requires c.Valid() && c.Ready() && LoadPlanned(sc, p, c.regs, base, bytes, addrs)
    modifies c.mem
    ensures c.Valid()
    ensures f.None? ==> |l| == Count(p) && Loaded(sc, old(c.mem.View()), l, c.mem.View()) && Gathered(p, l, out)
    ensures f.Some? ==> Broken(sc, c.regs, old(c.mem.View()), c.mem.View(), f.value)
  {
    ghost var m := c.mem.View();
    var g := OpenLoad(c, sc, base, bytes);
    if g.Some? {
      return g, [], [];
    }
    if p.contiguous {
      f, out, l := LoadContiguous(c, p, base, sc, m, addrs, Starts(p.regs, p.lanes));
    } else {
      f, out, l := LoadInterleaved(c, p, base, sc, m, addrs, Starts(p.lanes, p.regs));
    }
  }

  method OpenLoad(c: CPU, ghost sc: Script, base: Word, bytes: nat) returns (f: Option<Fault>)
    requires c.Valid() && c.Ready() && |sc.accs| > 0 && sc.accs[0] == CheckRead(base, bytes) && 0 < bytes
      && Unchanged(sc, c.regs)
    ensures f.None? ==> Loaded(sc, c.mem.View(), [], c.mem.View())
    ensures f.Some? ==> Broken(sc, c.regs, c.mem.View(), c.mem.View(), f.value)
  {
    var g := c.mem.GuestPage(Reading, base, bytes);
    f := if g.Ok? then None else Some(g.fault);
    ghost var m := c.mem.View();
    PerformNext(m, sc.accs, 0);
    assert One(Start(m), CheckRead(base, bytes)) == Performed(m, [], f);
    if f.Some? {
      FaultEnds(sc, c.regs, m, 1);
    }
  }

  method OpSimdLoadMulti(c: CPU, i: Inst) returns (e: Option<Stop>)
    requires c.Valid() && c.Ready() && GoodSimd(i)
    modifies c`regs, c.mem
    ensures c.Valid()
    ensures (c.regs, c.mem.View(), e) == RunScript(SimdLoadScript(i, old(c.regs)), old(c.regs), old(c.mem.View()))
  {
    var s := c.regs;
    ghost var m := c.mem.View();
    var f, out, l := LoadStructure(c, i);
    if f.Some? {
      return Some(Faulted(f.value));
    }
    PutOut(c, i.rd, out, i.sh);
    c.regs := Advance(SimdAdvance(i, c.regs, s.r[i.rn]));
    return None;
  }

  /** The loops of a structure load: the run of its script, up to the registers it commits. */
  method LoadStructure(c: CPU, i: Inst) returns (f: Option<Fault>, out: seq<Vec>, ghost l: seq<Word>)
    requires c.Valid() && c.Ready() && GoodSimd(i)
    modifies c.mem
    ensures c.Valid()
    ensures f.None? ==> |out| == 4
    ensures f.None? ==>
      SimdLoaded(i, c.regs, l) == Advance(SimdAdvance(i, PutVecs(c.regs, i.rd, out, i.sh), c.regs.r[i.rn]))
    ensures RunScript(SimdLoadScript(i, c.regs), c.regs, old(c.mem.View())) ==
      if f.None? then (SimdLoaded(i, c.regs, l), c.mem.View(), None) else (c.regs, c.mem.View(), Some(Faulted(f.value)))
  {
    ghost var m, sc := c.mem.View(), SimdLoadScript(i, c.regs);
    ghost var addrs := SimdLoadPlan(i, c.regs);
    f, out, l := LoadRows(c, ShapeOf(i), c.regs.r[i.rn], Total(i), sc, addrs);
    if f.None? {
      SimdLoadCommit(i, c.regs, l);
      LoadEnds(sc, c.regs, m, l, c.mem.View());
      SimdLoadedIs(i, c.regs, l, out);
    }
  }

  lemma SimdLoadedIs(i: Inst, s: Regs, l: seq<Word>, out: seq<Vec>)
    requires GoodSimd(i) && GoodShape(ShapeOf(i)) && |l| == Count(ShapeOf(i)) && Gathered(ShapeOf(i), l, out)
    ensures |out| == 4 && SimdLoaded(i, s, l) == Advance(SimdAdvance(i, PutVecs(s, i.rd, out, i.sh), s.r[i.rn]))
  {
  }

  lemma LoadEnds(sc: Script, s: Regs, m: Mem, l: seq<Word>, m': Mem)
    requires Loaded(sc, m, l, m') && |l| + 1 == |sc.accs| && sc.done(l).Next?
    ensures RunScript(sc, s, m) == (sc.done(l).regs, m', None)
  {
    AllDone(sc, s, m, Performed(m', l, None));
  }

  /** Writes the gathered registers back. */
  method PutOut(c: CPU, rd: nat, out: seq<Vec>, regs: nat)
    requires c.Valid() && regs <= |out|
    modifies c`regs
    ensures c.Valid() && c.regs == PutVecs(old(c.regs), rd, out, regs)
  {
    for r := 0 to regs
      invariant c.Valid() && c.regs == PutVecs(old(c.regs), rd, out, r)
    {
      c.regs := SetV(c.regs, rd + r, out[r]);
    }
  }
}
