/** The cooperative scheduler: guest threads as fibers that run in slices, each resumed from its saved context. */
module Scheduler {
  import opened Words
  import opened Machine

  const MAX_SLICES := 80
  const MAX_ROUNDS := 100000
  const SENTINEL := 0xFFFF_FF00
  const SP := 32
  const LR := 30

  // ---- saved contexts -----------------------------------------------------------------

  /** The engine: its registers and its instruction count. */
  datatype Engine = Engine(regs: Regs, icount: nat)

  type Saved = r: seq<Word> | |r| == 33 witness seq<Word>(33, _ => 0)

  datatype Context = Context(r: Saved, pc: Word, nzcv: nat, v: VecFile, fpcr: nat, fpsr: nat, tpidr: Word,
    tpidrro: Word,
                             exclAddr: Word, exclVal: Word, exclVal2: Word, exclSize: nat, exclValid: bool, icount: nat)

  function Save(e: Engine): Context {
    var s := e.regs;
    Context(s.r[..33], s.pc, s.nzcv, s.v, s.fpcr, s.fpsr, s.tpidr, s.tpidrro,
            s.exclAddr, s.exclVal, s.exclVal2, s.exclSize, s.exclValid, e.icount)
  }

  /** Registers 0 to 30 and the stack pointer come back; the zero register's slot and the scratch slots stay. */
  function Restore(x: Context, e: Engine): Engine {
    Engine(Regs(x.r[..31] + e.regs.r[31..32] + [x.r[SP]] + e.regs.r[33..], x.pc, x.nzcv, x.v, x.fpcr, x.fpsr,
      x.tpidr, x.tpidrro,
                x.exclAddr, x.exclVal, x.exclVal2, x.exclSize, x.exclValid), x.icount)
  }

  /** What a program can see of the engine is the same. */
  predicate Same(a: Engine, b: Engine) {
    var s, t := a.regs, b.regs;
    a.icount == b.icount && s.r[..31] == t.r[..31] && s.r[SP] == t.r[SP] && s.(r := t.r) == t
  }

  lemma SaveRestore(e: Engine, t: Engine)
    ensures Same(Restore(Save(e), t), e)
  {
    var r := Restore(Save(e), t).regs.r;
    assert r[..31] == e.regs.r[..31] && r[SP] == e.regs.r[SP];
  }

  // ---- fibers ---------------------------------------------------------------------------

  datatype State = Runnable | Waiting | Sleeping | Parked | Done

  /** A guest thread; ctx is the handle of its saved context, if it has one. */
  datatype Fiber = Fiber(id: nat, routine: Word, arg: Word, sp: Word, started: bool, ctx: Option<nat>, state: State,
                         waitAddr: Word, slices: nat, ret: Word)

  datatype Call = Wake(uaddr: Word) | Spawn(routine: Word, arg: Word, sp: Word)
  datatype Yield = NoYield | Preempt | FutexWait(uaddr: Word) | Sleep

  /** What the guest did in one slice: the calls it made, where it stopped and why. */
  datatype Slice = Slice(calls: seq<Call>, engine: Engine, fault: bool, exits: bool, why: Yield)

  /** Any guest: what it does may depend on how often guests have run before. */
  type Guest = (nat, Engine) -> Slice

  /** One slice, as it happened. */
  datatype Run = Run(fiber: nat, start: Engine, end: Engine)

  predicate Eligible(f: Fiber) { f.state == Runnable || f.state == Sleeping }

  // ---- the invariant ----------------------------------------------------------------------

  function LastEnd(trace: seq<Run>, i: nat): Option<Engine> {
    if |trace| == 0 then None
    else if trace[|trace| - 1].fiber == i then Some(trace[|trace| - 1].end)
    else LastEnd(trace[..|trace| - 1], i)
  }

  function RunsIn(trace: seq<Run>, i: nat): nat {
    if |trace| == 0 then 0 else RunsIn(trace[..|trace| - 1], i) + if trace[|trace| - 1].fiber == i then 1 else 0
  }

  /** Slice k starts at its fiber's entry, or exactly where the fiber's slice before it ended. */
  ghost predicate Resumed(trace: seq<Run>, k: nat, fibers: seq<Fiber>)
    requires k < |trace|
  {
    var run := trace[k];
    run.fiber < |fibers|
    && match LastEnd(trace[..k], run.fiber)
       case Some(e) => Same(run.start, e)
       case None =>
         var f, s := fibers[run.fiber], run.start.regs;
         s.pc == f.routine && s.r[0] == f.arg && s.r[LR] == SENTINEL && s.r[SP] == f.sp
  }

  /** A fiber on its own: unless it is the one running or the guest has exited, a fiber that has started and is neither
      done nor out of budget has a saved context. */
  predicate FiberOk(f: Fiber, running: bool, exited: bool) {
    f.slices <= MAX_SLICES
    && (!f.started ==> f.state == Runnable && f.slices == 0)
    && (f.ctx.Some? ==> f.started && (f.state == Waiting || Eligible(f)) && !running)
    && (f.state == Done ==> f.slices < MAX_SLICES)
    && (f.state == Waiting ==> f.ctx.Some?)
    && (f.state == Parked ==> exited || f.slices == MAX_SLICES)
    && (f.started && f.state != Done && f.slices < MAX_SLICES && !running && !exited ==> f.ctx.Some?)
    && (running ==> f.slices < MAX_SLICES && Eligible(f))
  }

  /** Slices it may have run: those it yielded from, and the one it ended or lost in. */
  function RunsOf(f: Fiber): nat {
    f.slices + if f.state == Done || (f.started && f.ctx.None? && f.slices < MAX_SLICES) then 1 else 0
  }

  /** A fiber's context: owned by it alone, holding the registers it last stopped with. */
  ghost predicate CtxOk(i: nat, f: Fiber, live: map<nat, Context>, owner: map<nat, int>, trace: seq<Run>) {
    match f.ctx
    case Some(h) =>
      h in live && h in owner && owner[h] == i && LastEnd(trace, i).Some? && live[h] == Save(LastEnd(trace, i).value)
    case None => f.started || LastEnd(trace, i).None?
  }

  predicate OwnerOk(h: nat, o: int, fibers: seq<Fiber>, main: Option<nat>) {
    if o == -1 then main == Some(h) else 0 <= o < |fibers| && fibers[o].ctx == Some(h)
  }

  ghost predicate FiberHolds(i: nat, fibers: seq<Fiber>, cur: Option<nat>, exited: bool, live: map<nat, Context>,
      owner: map<nat, int>, trace: seq<Run>, runs: seq<nat>)
    requires i < |fibers| == |runs|
  {
    FiberOk(fibers[i], cur == Some(i), exited) && CtxOk(i, fibers[i], live, owner, trace)
    && runs[i] == RunsIn(trace, i) <= RunsOf(fibers[i])
  }

  ghost predicate FibersOk(fibers: seq<Fiber>, cur: Option<nat>, exited: bool, live: map<nat, Context>,
      owner: map<nat, int>, trace: seq<Run>, runs: seq<nat>)
  {
    |runs| == |fibers| && (cur.Some? ==> cur.value < |fibers|)
    && forall i :: 0 <= i < |fibers| ==> FiberHolds(i, fibers, cur, exited, live, owner, trace, runs)
  }

  /** Every live context is owned by the main thread or by one fiber that names it. */
  ghost predicate OwnersOk(live: map<nat, Context>, owner: map<nat, int>, next: nat, fibers: seq<Fiber>,
      main: Option<nat>)
  {
    live.Keys == owner.Keys && (forall h :: h in owner ==> h < next && OwnerOk(h, owner[h], fibers, main))
    && (main.Some? ==> main.value in owner && owner[main.value] == -1)
  }

  ghost predicate AllResumed(trace: seq<Run>, fibers: seq<Fiber>) {
    forall k :: 0 <= k < |trace| ==> Resumed(trace, k, fibers)
  }

  predicate SameThread(f: Fiber, g: Fiber) {
    f.id == g.id && f.routine == g.routine && f.arg == g.arg && f.sp == g.sp
  }

  /** How a fiber may change: it stays the same thread, its slices only grow, and done is final. */
  predicate Later(f: Fiber, g: Fiber) {
    SameThread(f, g) && f.slices <= g.slices && (f.started ==> g.started) && (f.state == Done ==> g == f)
  }

  predicate Evolves(fs: seq<Fiber>, gs: seq<Fiber>) {
    |fs| <= |gs| && forall i :: 0 <= i < |fs| ==> Later(fs[i], gs[i])
  }

  lemma EvolvesTrans(fs: seq<Fiber>, gs: seq<Fiber>, hs: seq<Fiber>)
    requires Evolves(fs, gs) && Evolves(gs, hs)
    ensures Evolves(fs, hs)
  {
    forall i | 0 <= i < |fs| ensures Later(fs[i], hs[i]) {
      assert Later(fs[i], gs[i]) && Later(gs[i], hs[i]);
    }
  }

  lemma ResumedStill(trace: seq<Run>, fs: seq<Fiber>, gs: seq<Fiber>)
    requires Evolves(fs, gs) && AllResumed(trace, fs)
    ensures AllResumed(trace, gs)
  {
    forall k | 0 <= k < |trace| ensures Resumed(trace, k, gs) {
      assert Resumed(trace, k, fs) && Later(fs[trace[k].fiber], gs[trace[k].fiber]);
    }
  }

  lemma TraceGrows(trace: seq<Run>, run: Run, fs: seq<Fiber>)
    requires AllResumed(trace, fs) && Resumed(trace + [run], |trace|, fs)
    ensures AllResumed(trace + [run], fs)
    ensures forall i :: LastEnd(trace + [run], i) == if i == run.fiber then Some(run.end) else LastEnd(trace, i)
    ensures forall i :: RunsIn(trace + [run], i) == RunsIn(trace, i) + if i == run.fiber then 1 else 0
  {
    var t := trace + [run];
    forall k | 0 <= k < |t| ensures Resumed(t, k, fs) {
      if k < |trace| {
        assert Resumed(trace, k, fs) && t[..k] == trace[..k] && t[k] == trace[k];
      }
    }
    assert t[..|t| - 1] == trace;
  }

  lemma EvolvesAt(fs: seq<Fiber>, i: nat, f: Fiber)
    requires i < |fs| && Later(fs[i], f)
    ensures Evolves(fs, fs[i := f])
  {
  }

  lemma NoRuns(trace: seq<Run>, i: nat, fs: seq<Fiber>)
    requires i == |fs| && AllResumed(trace, fs)
    ensures LastEnd(trace, i).None? && RunsIn(trace, i) == 0
  {
    if |trace| > 0 {
      var k := |trace| - 1;
      assert Resumed(trace, k, fs);
      forall j | 0 <= j < k ensures Resumed(trace[..k], j, fs) {
        assert Resumed(trace, j, fs) && trace[..k][..j] == trace[..j];
      }
      NoRuns(trace[..k], i, fs);
    }
  }

  /** A new fiber. */
  lemma SpawnKeeps(fibers: seq<Fiber>, cur: Option<nat>, exited: bool, live: map<nat, Context>, owner: map<nat, int>,
      trace: seq<Run>, runs: seq<nat>, next: nat, main: Option<nat>, f: Fiber)
    requires FibersOk(fibers, cur, exited, live, owner, trace, runs) && OwnersOk(live, owner, next, fibers, main)
      && AllResumed(trace, fibers)
    requires !f.started && f.ctx.None? && f.state == Runnable && f.slices == 0
    ensures FibersOk(fibers + [f], cur, exited, live, owner, trace, runs + [0])
      && OwnersOk(live, owner, next, fibers + [f], main)
    ensures AllResumed(trace, fibers + [f]) && Evolves(fibers, fibers + [f])
  {
    var fs, rs := fibers + [f], runs + [0];
    NoRuns(trace, |fibers|, fibers);
    ResumedStill(trace, fibers, fs);
    forall i | 0 <= i < |fs| ensures FiberHolds(i, fs, cur, exited, live, owner, trace, rs) {
      if i < |fibers| {
        assert FiberHolds(i, fibers, cur, exited, live, owner, trace, runs);
      }
    }
    forall h | h in owner ensures OwnerOk(h, owner[h], fs, main) {
      assert OwnerOk(h, owner[h], fibers, main);
    }
  }

  /** A fiber changes, but not its context. */
  lemma SetKeeps(fibers: seq<Fiber>, cur: Option<nat>, exited: bool, live: map<nat, Context>, owner: map<nat, int>,
      trace: seq<Run>, runs: seq<nat>, next: nat, main: Option<nat>, i: nat, f: Fiber, cur': Option<nat>)
    requires FibersOk(fibers, cur, exited, live, owner, trace, runs) && OwnersOk(live, owner, next, fibers, main)
    requires i < |fibers| && Later(fibers[i], f) && f.ctx == fibers[i].ctx && runs[i] <= RunsOf(f)
    requires FiberOk(f, cur' == Some(i), exited)
      && (cur' == cur || ((cur.None? || cur == Some(i)) && (cur'.None? || cur' == Some(i))))
    requires f.started == fibers[i].started || LastEnd(trace, i).None?
    ensures FibersOk(fibers[i := f], cur', exited, live, owner, trace, runs)
      && OwnersOk(live, owner, next, fibers[i := f], main)
  {
    var fs := fibers[i := f];
    forall j | 0 <= j < |fs| ensures FiberHolds(j, fs, cur', exited, live, owner, trace, runs) {
      assert FiberHolds(j, fibers, cur, exited, live, owner, trace, runs);
    }
    forall h | h in owner ensures OwnerOk(h, owner[h], fs, main) {
      assert OwnerOk(h, owner[h], fibers, main);
    }
  }

  /** A fiber gives its context up. */
  lemma ReleaseKeeps(fibers: seq<Fiber>, cur: Option<nat>, exited: bool, live: map<nat, Context>,
      owner: map<nat, int>, trace: seq<Run>, runs: seq<nat>, next: nat, main: Option<nat>, i: nat, f: Fiber,
      cur': Option<nat>, h: nat)
    requires FibersOk(fibers, cur, exited, live, owner, trace, runs) && OwnersOk(live, owner, next, fibers, main)
    requires i < |fibers| && Later(fibers[i], f) && fibers[i].ctx == Some(h) && f.ctx.None? && f.started
      && runs[i] <= RunsOf(f)
    requires FiberOk(f, cur' == Some(i), exited) && (cur.None? || cur == Some(i)) && (cur'.None? || cur' == Some(i))
    ensures FibersOk(fibers[i := f], cur', exited, live - {h}, owner - {h}, trace, runs)
    ensures OwnersOk(live - {h}, owner - {h}, next, fibers[i := f], main)
  {
    var fs := fibers[i := f];
    assert FiberHolds(i, fibers, cur, exited, live, owner, trace, runs);
    forall j | 0 <= j < |fs| ensures FiberHolds(j, fs, cur', exited, live - {h}, owner - {h}, trace, runs) {
      assert FiberHolds(j, fibers, cur, exited, live, owner, trace, runs);
    }
    forall g | g in owner - {h} ensures OwnerOk(g, (owner - {h})[g], fs, main) {
      assert OwnerOk(g, owner[g], fibers, main);
    }
  }

  /** The running fiber's registers are saved under a new handle. */
  lemma AcquireKeeps(fibers: seq<Fiber>, exited: bool, live: map<nat, Context>, owner: map<nat, int>, trace: seq<Run>,
      runs: seq<nat>, next: nat, main: Option<nat>, i: nat, f: Fiber, x: Context)
    requires FibersOk(fibers, Some(i), exited, live, owner, trace, runs) && OwnersOk(live, owner, next, fibers, main)
    requires i < |fibers| && Later(fibers[i], f) && f.ctx == Some(next) && runs[i] <= RunsOf(f)
      && FiberOk(f, false, exited)
    requires LastEnd(trace, i).Some? && x == Save(LastEnd(trace, i).value)
    ensures FibersOk(fibers[i := f], None, exited, live[next := x], owner[next := i], trace, runs)
    ensures OwnersOk(live[next := x], owner[next := i], next + 1, fibers[i := f], main)
  {
    var fs := fibers[i := f];
    assert FiberHolds(i, fibers, Some(i), exited, live, owner, trace, runs);
    var lv, ow := live[next := x], owner[next := i];
    forall j | 0 <= j < |fs| ensures FiberHolds(j, fs, None, exited, lv, ow, trace, runs) {
      assert FiberHolds(j, fibers, Some(i), exited, live, owner, trace, runs);
    }
    forall g | g in ow ensures g < next + 1 && OwnerOk(g, ow[g], fs, main) {
      assert g != next ==> OwnerOk(g, owner[g], fibers, main);
    }
  }

  /** A slice has run: it joins the trace, and is counted. */
  lemma RunKeeps(fibers: seq<Fiber>, exited: bool, live: map<nat, Context>, owner: map<nat, int>, trace: seq<Run>,
      runs: seq<nat>, i: nat, start: Engine, end: Engine, exited': bool)
    requires FibersOk(fibers, Some(i), exited, live, owner, trace, runs) && AllResumed(trace, fibers)
      && (exited ==> exited')
    requires i < |fibers| && fibers[i].started && runs[i] <= fibers[i].slices
    requires Resumed(trace + [Run(i, start, end)], |trace|, fibers)
    ensures var t := trace + [Run(i, start, end)];
      FibersOk(fibers, Some(i), exited', live, owner, t, runs[i := runs[i] + 1]) && AllResumed(t, fibers)
        && LastEnd(t, i) == Some(end)
  {
    var t, rs := trace + [Run(i, start, end)], runs[i := runs[i] + 1];
    TraceGrows(trace, Run(i, start, end), fibers);
    forall j | 0 <= j < |fibers| ensures FiberHolds(j, fibers, Some(i), exited', live, owner, t, rs) {
      assert FiberHolds(j, fibers, Some(i), exited, live, owner, trace, runs);
    }
  }

  // ---- budgets --------------------------------------------------------------------------------

  /** Slices a fiber may still run. */
  function Left(f: Fiber): int {
    if f.state == Done then 0 else MAX_SLICES - f.slices
  }

  function Budget(fs: seq<Fiber>): int {
    if |fs| == 0 then 0 else Budget(fs[..|fs| - 1]) + Left(fs[|fs| - 1])
  }

  lemma {:induction false} BudgetUpdate(fs: seq<Fiber>, i: nat, f: Fiber)
    requires i < |fs|
    ensures Budget(fs[i := f]) == Budget(fs) - Left(fs[i]) + Left(f)
  {
    var k := |fs| - 1;
    if i < k {
      BudgetUpdate(fs[..k], i, f);
      assert fs[i := f][..k] == fs[..k][i := f];
    } else {
      assert fs[i := f][..k] == fs[..k];
    }
  }

  lemma BudgetAppend(fs: seq<Fiber>, f: Fiber)
    ensures Budget(fs + [f]) == Budget(fs) + Left(f)
  {
    assert (fs + [f])[..|fs|] == fs;
  }

  lemma {:induction false} BudgetRange(fs: seq<Fiber>)
    requires forall i :: 0 <= i < |fs| ==> fs[i].slices <= MAX_SLICES
    ensures 0 <= Budget(fs) <= MAX_SLICES * |fs|
  {
    if |fs| > 0 {
      BudgetRange(fs[..|fs| - 1]);
    }
  }

  /** Fibers parked on uaddr become runnable. */
  function Woken(f: Fiber, uaddr: Word): Fiber {
    if ParkedOn(f, uaddr) then f.(state := Runnable) else f
  }

  predicate ParkedOn(f: Fiber, uaddr: Word) {
    (f.state == Waiting || f.state == Parked) && f.waitAddr == uaddr
  }

  function Parkers(fs: seq<Fiber>, uaddr: Word): nat {
    if |fs| == 0 then 0 else Parkers(fs[..|fs| - 1], uaddr) + if ParkedOn(fs[|fs| - 1], uaddr) then 1 else 0
  }

  lemma ParkersNext(fs: seq<Fiber>, i: nat, uaddr: Word)
    requires i < |fs|
    ensures Parkers(fs[..i + 1], uaddr) == Parkers(fs[..i], uaddr) + if ParkedOn(fs[i], uaddr) then 1 else 0
  {
    assert fs[..i + 1][..i] == fs[..i];
  }

  lemma WokenEvolves(fs: seq<Fiber>, gs: seq<Fiber>, uaddr: Word)
    requires |fs| == |gs| && forall j :: 0 <= j < |fs| ==> gs[j] == Woken(fs[j], uaddr)
    ensures Evolves(fs, gs)
  {
  }

  class Emulator {
    const guest: Guest
    var engine: Engine
    var fibers: seq<Fiber>
    var live: map<nat, Context>
    var nextCtx: nat
    var nextFiberID: nat
    var curFiber: Option<nat>
    var exited: bool
    var clock: nat
    ghost var trace: seq<Run>
    ghost var runs: seq<nat>
    ghost var owner: map<nat, int>
    ghost var main: Option<nat>

    ghost predicate Valid()
      reads this`fibers, this`live, this`owner, this`nextCtx, this`curFiber, this`exited, this`trace, this`runs,
      this`main
    {
      FibersOk(fibers, curFiber, exited, live, owner, trace, runs) && OwnersOk(live, owner, nextCtx, fibers, main)
      && AllResumed(trace, fibers)
    }

    constructor (g: Guest, e: Engine)
      ensures Valid() && curFiber.None? && main.None? && fibers == [] && engine == e && !exited
    {
      guest, engine, fibers, live, nextCtx, nextFiberID, curFiber, exited, clock := g, e, [], map[], 0, 0, None,
        false, 0;
      trace, runs, owner, main := [], [], map[], None;
    }

    /** The main thread's context is untouched. */
    ghost predicate MainKept(before: map<nat, Context>)
      reads this`live, this`main
    {
      main.Some? ==> main.value in before && main.value in live && live[main.value] == before[main.value]
    }

    /** A guest thread starts life as an unstarted, ready fiber at the end of the list. */
    method NewFiber(routine: Word, arg: Word, sp: Word)
      requires Valid()
      modifies this`fibers, this`nextFiberID, this`runs
      ensures Valid() && Evolves(old(fibers), fibers) && |fibers| == |old(fibers)| + 1
      ensures Budget(fibers) == Budget(old(fibers)) + MAX_SLICES && nextFiberID == old(nextFiberID) + 1
      ensures fibers == old(fibers) + [Fiber(nextFiberID, routine, arg, sp, false, None, Runnable, 0, 0, 0)]
      ensures forall j :: 0 <= j < |old(fibers)| ==> runs[j] == old(runs)[j]
    {
      var f := Fiber(nextFiberID + 1, routine, arg, sp, false, None, Runnable, 0, 0, 0);
      BudgetAppend(fibers, f);
      SpawnKeeps(fibers, curFiber, exited, live, owner, trace, runs, nextCtx, main, f);
      nextFiberID := nextFiberID + 1;
      fibers := fibers + [f];
      runs := runs + [0];
    }

    /** Parked fibers waiting for this address turn ready; the others keep their state. */
    method WakeFutex(uaddr: Word) returns (n: nat)
      requires Valid()
      modifies this`fibers
      ensures Valid() && Evolves(old(fibers), fibers) && |fibers| == |old(fibers)|
        && Budget(fibers) == Budget(old(fibers))
      ensures forall j :: 0 <= j < |fibers| ==> fibers[j] == Woken(old(fibers)[j], uaddr)
      ensures n == Parkers(old(fibers), uaddr)
    {
      n := 0;
      for i := 0 to |fibers|
        invariant Valid() && |fibers| == |old(fibers)| && Budget(fibers) == Budget(old(fibers))
        invariant n == Parkers(old(fibers)[..i], uaddr)
        invariant forall j :: 0 <= j < |fibers| ==>
          fibers[j] == if j < i then Woken(old(fibers)[j], uaddr) else old(fibers)[j]
      {
        ParkersNext(old(fibers), i, uaddr);
        var woke := WakeOne(i, uaddr);
        if woke {
          n := n + 1;
        }
      }
      assert old(fibers)[..|fibers|] == old(fibers);
      WokenEvolves(old(fibers), fibers, uaddr);
    }

    /** Wakes one fiber, if it waits for this address. */
    method WakeOne(i: nat, uaddr: Word) returns (woke: bool)
      requires Valid() && i < |fibers|
      modifies this`fibers
      ensures Valid() && fibers == old(fibers)[i := Woken(old(fibers)[i], uaddr)]
      ensures Budget(fibers) == Budget(old(fibers)) && woke == ParkedOn(old(fibers)[i], uaddr)
    {
      var f := fibers[i];
      assert FiberHolds(i, fibers, curFiber, exited, live, owner, trace, runs);
      woke := (f.state == Waiting || f.state == Parked) && f.waitAddr == uaddr;
      if woke {
        SetFiber(i, f.(state := Runnable));
      }
    }

    /** Replaces a fiber, its context staying what it was. */
    method SetFiber(i: nat, f: Fiber)
      requires Valid() && i < |fibers| && FiberOk(f, curFiber == Some(i), exited)
      requires Later(fibers[i], f) && f.ctx == fibers[i].ctx && f.started == fibers[i].started && runs[i] <= RunsOf(f)
      modifies this`fibers
      ensures Valid() && fibers == old(fibers)[i := f] && Evolves(old(fibers), fibers)
      ensures Budget(fibers) == Budget(old(fibers)) - Left(old(fibers)[i]) + Left(f)
    {
      BudgetUpdate(fibers, i, f);
      EvolvesAt(fibers, i, f);
      SetKeeps(fibers, curFiber, exited, live, owner, trace, runs, nextCtx, main, i, f, curFiber);
      ResumedStill(trace, fibers, fibers[i := f]);
      fibers := fibers[i := f];
    }

    /** A fiber gives up its context, if it has one: to run, or because its budget is spent. */
    method Release(i: nat, f: Fiber, cur: Option<nat>)
      requires Valid() && i < |fibers| && f.ctx.None? && Later(fibers[i], f) && Left(f) == Left(fibers[i])
      requires (curFiber.None? || curFiber == Some(i)) && (cur.None? || cur == Some(i))
      requires FiberOk(f, cur == Some(i), exited) && runs[i] <= RunsOf(f) && f.started
      requires fibers[i].started || LastEnd(trace, i).None?
      modifies this`fibers, this`live, this`owner, this`curFiber
      ensures Valid() && fibers == old(fibers)[i := f] && curFiber == cur && Evolves(old(fibers), fibers)
      ensures Budget(fibers) == Budget(old(fibers))
      ensures MainKept(old(live))
    {
      BudgetUpdate(fibers, i, f);
      EvolvesAt(fibers, i, f);
      ResumedStill(trace, fibers, fibers[i := f]);
      var c := fibers[i].ctx;
      if c.Some? {
        ReleaseKeeps(fibers, curFiber, exited, live, owner, trace, runs, nextCtx, main, i, f, cur, c.value);
        live := live - {c.value};
        owner := owner - {c.value};
      } else {
        SetKeeps(fibers, curFiber, exited, live, owner, trace, runs, nextCtx, main, i, f, cur);
      }
      fibers := fibers[i := f];
      curFiber := cur;
    }

    /** The running fiber stops with its registers saved. */
    method Acquire(i: nat, state: State, waitAddr: Word)
      requires Valid() && curFiber == Some(i) && fibers[i].started && LastEnd(trace, i) == Some(engine)
      requires state == Waiting || state == Sleeping
      modifies this`fibers, this`live, this`owner, this`curFiber, this`nextCtx
      ensures Valid() && curFiber.None? && Evolves(old(fibers), fibers) && |fibers| == |old(fibers)|
      ensures Budget(fibers) == Budget(old(fibers)) - 1
      ensures MainKept(old(live))
    {
      assert FiberHolds(i, fibers, curFiber, exited, live, owner, trace, runs);
      var f := fibers[i].(ctx := Some(nextCtx), slices := fibers[i].slices + 1, state := state,
                          waitAddr := if state == Waiting then waitAddr else fibers[i].waitAddr);
      BudgetUpdate(fibers, i, f);
      EvolvesAt(fibers, i, f);
      ResumedStill(trace, fibers, fibers[i := f]);
      AcquireKeeps(fibers, exited, live, owner, trace, runs, nextCtx, main, i, f, Save(engine));
      live := live[nextCtx := Save(engine)];
      owner := owner[nextCtx := i];
      nextCtx := nextCtx + 1;
      fibers := fibers[i := f];
      curFiber := None;
    }

    /** The budget is spent: only a futex wake makes the fiber eligible again, and then only to be parked once more. */
    method ParkFiber(i: nat)
      requires Valid() && curFiber.None? && i < |fibers| && Eligible(fibers[i]) && fibers[i].slices >= MAX_SLICES
      modifies this`fibers, this`live, this`owner, this`curFiber
      ensures Valid() && curFiber.None? && Evolves(old(fibers), fibers) && |fibers| == |old(fibers)|
      ensures Budget(fibers) == Budget(old(fibers)) && fibers[i].state == Parked
      ensures forall j :: 0 <= j < |fibers| && j != i ==> fibers[j] == old(fibers)[j]
      ensures MainKept(old(live))
    {
      assert FiberHolds(i, fibers, curFiber, exited, live, owner, trace, runs);
      Release(i, fibers[i].(state := Parked, ctx := None), None);
    }

    /** The engine is where the fiber's next slice has to start. */
    ghost predicate StartsAt(i: nat)
      requires i < |fibers|
      reads this
    {
      match LastEnd(trace, i)
      case Some(e) => Same(engine, e)
      case None =>
        var f, s := fibers[i], engine.regs;
        s.pc == f.routine && s.r[0] == f.arg && s.r[LR] == SENTINEL && s.r[SP] == f.sp
    }

    /** Prepares the engine for a fiber: at its entry, or from its saved context, which is freed. A fiber whose
        context was lost, which takes an exited guest, is parked instead. */
    method Resume(i: nat) returns (ok: bool)
      requires Valid() && curFiber.None? && i < |fibers| && Eligible(fibers[i]) && fibers[i].slices < MAX_SLICES
      modifies this`engine, this`fibers, this`live, this`owner, this`curFiber
      ensures Valid() && Evolves(old(fibers), fibers) && |fibers| == |old(fibers)|
        && Budget(fibers) == Budget(old(fibers))
      ensures ok ==> curFiber == Some(i) && StartsAt(i) && fibers[i].started && runs[i] <= fibers[i].slices
      ensures !ok ==> curFiber.None? && exited
      ensures MainKept(old(live))
    {
      assert FiberHolds(i, fibers, curFiber, exited, live, owner, trace, runs);
      var f := fibers[i];
      if !f.started {
        engine := engine.(regs := engine.regs.(pc := f.routine,
                  r := engine.regs.r[SP := f.sp][0 := f.arg][LR := SENTINEL]));
        Release(i, f.(started := true), Some(i));
        return true;
      }
      if f.ctx.None? {
        Release(i, f.(state := Parked), None);
        return false;
      }
      ghost var e := LastEnd(trace, i).value;
      SaveRestore(e, engine);
      engine := Restore(live[f.ctx.value], engine);
      Release(i, f.(ctx := None), Some(i));
      return true;
    }

    /** The wakes and thread creations of a slice, in order. */
    method Serve(calls: seq<Call>)
      requires Valid() && curFiber.Some?
      modifies this`fibers, this`nextFiberID, this`runs
      ensures Valid() && Evolves(old(fibers), fibers)
      ensures Budget(fibers) == Budget(old(fibers)) + MAX_SLICES * (|fibers| - |old(fibers)|)
      ensures fibers[curFiber.value] == old(fibers)[curFiber.value] && runs[curFiber.value] == old(runs)[curFiber.value]
    {
      ghost var c := curFiber.value;
      for k := 0 to |calls|
        invariant Valid() && Evolves(old(fibers), fibers) && curFiber == Some(c)
        invariant Budget(fibers) == Budget(old(fibers)) + MAX_SLICES * (|fibers| - |old(fibers)|)
        invariant fibers[c] == old(fibers)[c] && runs[c] == old(runs)[c]
      {
        ghost var before := fibers;
        assert FiberHolds(c, fibers, curFiber, exited, live, owner, trace, runs);
        match calls[k] {
          case Wake(uaddr) =>
            var n := WakeFutex(uaddr);
          case Spawn(routine, arg, sp) =>
            NewFiber(routine, arg, sp);
        }
        EvolvesTrans(old(fibers), before, fibers);
      }
    }

    /** Runs the guest until it stops. */
    method Start(i: nat) returns (s: Slice)
      requires Valid() && curFiber == Some(i) && StartsAt(i) && fibers[i].started && runs[i] <= fibers[i].slices
      modifies this
      ensures Valid() && Evolves(old(fibers), fibers) && curFiber == Some(i) && fibers[i] == old(fibers)[i]
      ensures LastEnd(trace, i) == Some(engine) && engine == s.engine && exited == (old(exited) || s.exits)
      ensures Budget(fibers) == Budget(old(fibers)) + MAX_SLICES * (|fibers| - |old(fibers)|)
      ensures live == old(live) && main == old(main)
    {
      s := guest(clock, engine);
      clock := clock + 1;
      Serve(s.calls);
      Record(i, s);
    }

    /** The engine is where the guest left it; the slice joins the trace. */
    method Record(i: nat, s: Slice)
      requires Valid() && curFiber == Some(i) && StartsAt(i) && fibers[i].started && runs[i] <= fibers[i].slices
      modifies this`engine, this`exited, this`runs, this`trace
      ensures Valid() && LastEnd(trace, i) == Some(engine) && engine == s.engine && exited == (old(exited) || s.exits)
    {
      ghost var run := Run(i, engine, s.engine);
      assert (trace + [run])[..|trace|] == trace;
      RunKeeps(fibers, exited, live, owner, trace, runs, i, engine, s.engine, exited || s.exits);
      engine := s.engine;
      exited := exited || s.exits;
      runs := runs[i := runs[i] + 1];
      trace := trace + [run];
    }

    /** The running fiber stops for good, or is left where the guest exited. */
    method Settle(i: nat, f: Fiber)
      requires Valid() && curFiber == Some(i) && FiberOk(f, false, exited)
      requires Later(fibers[i], f) && f.ctx == fibers[i].ctx && f.started == fibers[i].started && runs[i] <= RunsOf(f)
      modifies this`fibers, this`curFiber
      ensures Valid() && fibers == old(fibers)[i := f] && Evolves(old(fibers), fibers) && curFiber.None?
      ensures Budget(fibers) == Budget(old(fibers)) - Left(old(fibers)[i]) + Left(f)
    {
      BudgetUpdate(fibers, i, f);
      EvolvesAt(fibers, i, f);
      SetKeeps(fibers, curFiber, exited, live, owner, trace, runs, nextCtx, main, i, f, None);
      ResumedStill(trace, fibers, fibers[i := f]);
      fibers := fibers[i := f];
      curFiber := None;
    }

    /** One slice of a fiber: until it faults, returns, or yields and is saved for later. */
    method RunFiberSlice(i: nat) returns (err: bool)
      requires Valid() && curFiber.None? && i < |fibers| && Eligible(fibers[i]) && fibers[i].slices < MAX_SLICES
      modifies this
      ensures Valid() && curFiber.None? && Evolves(old(fibers), fibers) && main == old(main) && MainKept(old(live))
      ensures (old(exited) ==> exited) && (err ==> exited)
      ensures !exited ==> Budget(fibers) < Budget(old(fibers)) + MAX_SLICES * (|fibers| - |old(fibers)|)
    {
      var ok := Resume(i);
      if !ok {
        return false;
      }
      ghost var resumed := fibers;
      var s := Start(i);
      EvolvesTrans(old(fibers), resumed, fibers);
      ghost var ran := fibers;
      assert FiberHolds(i, fibers, curFiber, exited, live, owner, trace, runs);
      err := Stopped(i, s);
      EvolvesTrans(old(fibers), ran, fibers);
    }

    /** What a slice's end makes of its fiber. */
    method Stopped(i: nat, s: Slice) returns (err: bool)
      requires Valid() && curFiber == Some(i) && fibers[i].started && LastEnd(trace, i) == Some(engine)
        && (s.exits ==> exited)
      modifies this`fibers, this`live, this`owner, this`curFiber, this`nextCtx
      ensures Valid() && curFiber.None? && Evolves(old(fibers), fibers) && |fibers| == |old(fibers)|
        && MainKept(old(live))
      ensures err ==> exited
      ensures !exited ==> Budget(fibers) < Budget(old(fibers))
    {
      assert FiberHolds(i, fibers, curFiber, exited, live, owner, trace, runs);
      var f := fibers[i];
      if s.fault {
        Settle(i, f.(state := Done));
        return false;
      }
      if exited {
        Settle(i, f);
        return true;
      }
      if engine.regs.pc == SENTINEL {
        Settle(i, f.(state := Done, ret := engine.regs.r[0]));
        return false;
      }
      if s.why.FutexWait? {
        Acquire(i, Waiting, s.why.uaddr);
      } else {
        Acquire(i, Sleeping, 0);
      }
      return false;
    }

    predicate NoneEligible()
      reads this`fibers
    {
      forall j :: 0 <= j < |fibers| ==> !Eligible(fibers[j])
    }

    method AnyRunnable() returns (r: bool)
      ensures r == !NoneEligible()
    {
      for i := 0 to |fibers|
        invariant forall j :: 0 <= j < i ==> !Eligible(fibers[j])
      {
        if Eligible(fibers[i]) {
          return true;
        }
      }
      return false;
    }

    /** One round: a slice for every fiber that was there when the round began and can run. */
    method Round() returns (ran: nat, err: bool)
      requires Valid() && curFiber.None?
      modifies this
      ensures Valid() && curFiber.None? && Evolves(old(fibers), fibers) && main == old(main) && MainKept(old(live))
      ensures (old(exited) ==> exited) && (err ==> exited)
      ensures !exited ==> Budget(fibers) + ran <= Budget(old(fibers)) + MAX_SLICES * (|fibers| - |old(fibers)|)
      ensures ran == 0 && !err ==> NoneEligible()
    {
      ran, err := 0, false;
      var n := |fibers|;
      for i := 0 to n
        invariant Valid() && curFiber.None? && Evolves(old(fibers), fibers) && main == old(main)
          && MainKept(old(live)) && !err
        invariant (old(exited) ==> exited) && n <= |fibers|
        invariant !exited ==> Budget(fibers) + ran <= Budget(old(fibers)) + MAX_SLICES * (|fibers| - |old(fibers)|)
        invariant ran == 0 ==> |fibers| == n && forall j :: 0 <= j < i ==> !Eligible(fibers[j])
      {
        ghost var before := fibers;
        if Eligible(fibers[i]) {
          if fibers[i].slices >= MAX_SLICES {
            ParkFiber(i);
          } else {
            err := RunFiberSlice(i);
            if err {
              EvolvesTrans(old(fibers), before, fibers);
              return;
            }
            ran := ran + 1;
          }
        }
        EvolvesTrans(old(fibers), before, fibers);
      }
    }

    method Rounds() returns (ran: nat, err: bool, rounds: nat)
      requires Valid() && curFiber.None?
      modifies this
      ensures Valid() && curFiber.None? && Evolves(old(fibers), fibers) && main == old(main) && MainKept(old(live))
      ensures (old(exited) ==> exited) && (err ==> exited)
      ensures !exited ==> ran <= MAX_SLICES * |fibers| && rounds <= ran + 1
      ensures !err && rounds < MAX_ROUNDS ==> NoneEligible()
    {
      ran, err, rounds := 0, false, 0;
      while rounds < MAX_ROUNDS
        invariant Valid() && curFiber.None? && Evolves(old(fibers), fibers) && main == old(main)
          && MainKept(old(live)) && !err
        invariant (old(exited) ==> exited) && rounds <= ran
        invariant !exited ==> Budget(fibers) + ran <= Budget(old(fibers)) + MAX_SLICES * (|fibers| - |old(fibers)|)
        decreases MAX_ROUNDS - rounds
      {
        ghost var before := fibers;
        var r;
        r, err := Round();
        EvolvesTrans(old(fibers), before, fibers);
        ran := ran + r;
        rounds := rounds + 1;
        if err || r == 0 {
          break;
        }
      }
      SlicesBounded();
      BudgetRange(fibers);
      BudgetRange(old(fibers));
    }

    /** No fiber ever runs more than 80 slices. */
    lemma SlicesBounded()
      requires Valid()
      ensures forall i :: 0 <= i < |fibers| ==> fibers[i].slices <= MAX_SLICES && RunsIn(trace, i) <= MAX_SLICES
    {
      forall i | 0 <= i < |fibers| ensures fibers[i].slices <= MAX_SLICES && RunsIn(trace, i) <= MAX_SLICES {
        assert FiberHolds(i, fibers, curFiber, exited, live, owner, trace, runs);
      }
    }

    /** Saves the main thread's registers. */
    method TakeMain() returns (m: nat)
      requires Valid() && curFiber.None? && main.None?
      modifies this`live, this`owner, this`nextCtx, this`main
      ensures Valid() && main == Some(m) && m in live && live[m] == Save(engine)
    {
      m := nextCtx;
      MainTaken(fibers, curFiber, exited, live, owner, trace, runs, m, Save(engine));
      live := live[m := Save(engine)];
      owner := owner[m := -1];
      nextCtx := nextCtx + 1;
      main := Some(m);
    }

    /** Restores them and frees the context. */
    method GiveMainBack(m: nat, ghost e: Engine)
      requires Valid() && main == Some(m) && m in live && live[m] == Save(e)
      modifies this`engine, this`live, this`owner, this`main
      ensures Valid() && main.None? && Same(engine, e)
    {
      SaveRestore(e, engine);
      MainGiven(fibers, curFiber, exited, live, owner, trace, runs, nextCtx, m);
      engine := Restore(live[m], engine);
      live := live - {m};
      owner := owner - {m};
      main := None;
    }

    /** Runs the fibers, round by round, until none can make progress. */
    method RunThreads() returns (ran: nat, err: bool, ghost rounds: nat)
      requires Valid() && curFiber.None? && main.None?
      modifies this
      ensures Valid() && curFiber.None? && main.None? && Evolves(old(fibers), fibers)
      ensures Same(engine, old(engine))
      ensures err ==> exited
      ensures !exited ==> ran <= MAX_SLICES * |fibers| && rounds <= ran + 1
      ensures !err && rounds < MAX_ROUNDS ==> NoneEligible()
    {
      var any := AnyRunnable();
      if !any {
        return 0, false, 0;
      }
      var m := TakeMain();
      ran, err, rounds := Rounds();
      GiveMainBack(m, old(engine));
    }
  }

  lemma MainTaken(fibers: seq<Fiber>, cur: Option<nat>, exited: bool, live: map<nat, Context>, owner: map<nat, int>,
      trace: seq<Run>, runs: seq<nat>, m: nat, x: Context)
    requires FibersOk(fibers, cur, exited, live, owner, trace, runs) && OwnersOk(live, owner, m, fibers, None)
    ensures FibersOk(fibers, cur, exited, live[m := x], owner[m := -1], trace, runs)
    ensures OwnersOk(live[m := x], owner[m := -1], m + 1, fibers, Some(m))
  {
    var lv, ow := live[m := x], owner[m := -1];
    forall j | 0 <= j < |fibers| ensures FiberHolds(j, fibers, cur, exited, lv, ow, trace, runs) {
      assert FiberHolds(j, fibers, cur, exited, live, owner, trace, runs);
    }
    forall g | g in ow ensures g < m + 1 && OwnerOk(g, ow[g], fibers, Some(m)) {
      assert g != m ==> OwnerOk(g, owner[g], fibers, None);
    }
  }

  lemma MainGiven(fibers: seq<Fiber>, cur: Option<nat>, exited: bool, live: map<nat, Context>, owner: map<nat, int>,
      trace: seq<Run>, runs: seq<nat>, next: nat, m: nat)
    requires FibersOk(fibers, cur, exited, live, owner, trace, runs) && OwnersOk(live, owner, next, fibers, Some(m))
    ensures FibersOk(fibers, cur, exited, live - {m}, owner - {m}, trace, runs)
    ensures OwnersOk(live - {m}, owner - {m}, next, fibers, None)
  {
    var lv, ow := live - {m}, owner - {m};
    forall j | 0 <= j < |fibers| ensures FiberHolds(j, fibers, cur, exited, lv, ow, trace, runs) {
      assert FiberHolds(j, fibers, cur, exited, live, owner, trace, runs);
    }
    forall g | g in ow ensures OwnerOk(g, ow[g], fibers, None) {
      assert OwnerOk(g, owner[g], fibers, Some(m));
    }
  }
}
