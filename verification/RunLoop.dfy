/** The interpreter's run loop: batches over cached decoded instructions. */
module RunLoop {
  import opened Words
  import opened FlatMemory
  import opened Machine
  import opened GuestMemory
  import opened Cpu
  import opened Dispatch

  const STOP_CHECK_BATCH := 512

  /** The instruction count at which a run stops, in 64-bit arithmetic. */
  function Limit(icount: Word, count: Word): Word {
    if count != 0 then (icount + count) % B64 else B64 - 1
  }

  /** Instructions a run may still retire. */
  function Left(icount: Word, count: Word): nat {
    if Limit(icount, count) < icount then 0 else Limit(icount, count) - icount
  }

  /** A run with a count retires up to that many instructions, unless the counter would wrap: then it retires none. */
  lemma LeftIs(icount: Word, count: Word)
    requires count > 0
    ensures Left(icount, count) == if icount + count < B64 then count else 0
  {
  }

  // ---- how far a run gets -----------------------------------------------------------------

  /** One more instruction. */
  lemma {:induction false} RetiresMore(step: Stepper, s: State, until: Word, k: nat, t: State)
    requires Retires(step, s, until, k, t) && t.regs.pc != until && step(t).1.None?
    ensures Retires(step, s, until, k + 1, step(t).0)
    decreases k
  {
    if k == 0 {
      assert Retires(step, step(s).0, until, 0, step(t).0);
    } else {
      RetiresMore(step, step(s).0, until, k - 1, t);
    }
  }

  /** A run that retires k instructions and no more. */
  ghost predicate Halts(step: Stepper, s: State, until: Word, k: nat) {
    exists t :: Retires(step, s, until, k, t) && (t.regs.pc == until || step(t).1.Some?)
  }

  lemma {:induction false} HaltsThere(step: Stepper, s: State, until: Word, k: nat, t: State, j: nat, u: State)
    requires Retires(step, s, until, k, t) && (t.regs.pc == until || step(t).1.Some?)
    requires Retires(step, s, until, j, u)
    ensures j <= k
    decreases k
  {
    if k > 0 && j > 0 {
      HaltsThere(step, step(s).0, until, k - 1, t, j - 1, u);
    }
  }

  /** The only count, congruent to the first, from which a batch would wrap the counter. */
  function WrapHead(icount: Word): nat {
    B64 - STOP_CHECK_BATCH + icount % STOP_CHECK_BATCH
  }

  lemma HeadsBelow(icount: Word, first: Word)
    requires first <= icount && (icount - first) % STOP_CHECK_BATCH == 0
    ensures icount <= WrapHead(first) && first <= WrapHead(first)
    ensures icount >= B64 - STOP_CHECK_BATCH ==> icount == WrapHead(first)
    ensures icount < B64 - STOP_CHECK_BATCH ==> icount + STOP_CHECK_BATCH <= WrapHead(first)
  {
  }

  /** A run retires k instructions. */
  ghost predicate Reaches(step: Stepper, s: State, until: Word, k: nat) {
    exists t :: Retires(step, s, until, k, t)
  }

  /** A run comes to a batch that would wrap before it reaches its limit. */
  ghost predicate Wraps(step: Stepper, s: State, until: Word, limit: Word) {
    s.icount < B64 && s.icount <= WrapHead(s.icount) < limit && Reaches(step, s, until, WrapHead(s.icount) - s.icount)
  }

  /** For instance, a run without a count that starts 512 instructions below the wrap makes no progress at all. */
  lemma WrapsAtOnce(step: Stepper, s: State, until: Word)
    requires s.icount == B64 - STOP_CHECK_BATCH
    ensures Wraps(step, s, until, Limit(s.icount, 0))
  {
    assert Retires(step, s, until, 0, s);
  }

  /** And a count that reaches the wrap retires nothing. */
  lemma CountWraps()
    ensures Limit(1, B64 - 1) == 0 && Left(1, B64 - 1) == 0
  {
  }

  lemma HaltedEarly(step: Stepper, s: State, until: Word, limit: Word, k: nat)
    requires s.icount < B64 && Halts(step, s, until, k) && s.icount + k < WrapHead(s.icount)
    ensures !Wraps(step, s, until, limit)
  {
    if Wraps(step, s, until, limit) {
      var t :| Retires(step, s, until, k, t) && (t.regs.pc == until || step(t).1.Some?);
      var u :| Retires(step, s, until, WrapHead(s.icount) - s.icount, u);
      HaltsThere(step, s, until, k, t, WrapHead(s.icount) - s.icount, u);
    }
  }

  // ---- one instruction --------------------------------------------------------------------------

  /** Calls every code hook whose range holds pc; the hooks might have changed code, so the fetch cache is forgotten. */
  method CallCodeHooks(c: CPU, pc: Word)
    requires c.Valid()
    modifies c`codeLog, c.mem`caches
    ensures c.Valid() && c.codeLog == old(c.codeLog) + Calls(c.codeHooks, pc, 4, 0) && c.mem.caches.fetchVPN == NO_VPN
  {
    for k := 0 to |c.codeHooks|
      invariant c.codeLog == old(c.codeLog) + Calls(c.codeHooks[..k], pc, 4, 0)
    {
      assert c.codeHooks[..k + 1][..k] == c.codeHooks[..k];
      if Watches(c.codeHooks[k], pc) {
        c.codeLog := c.codeLog + [Event(c.codeHooks[k].id, pc, 4, 0)];
      }
    }
    assert c.codeHooks[..|c.codeHooks|] == c.codeHooks;
    c.mem.DropFetch();
  }

  /** Looks pc's page up, unless it is the one instructions are fetched from. */
  method Refetch(c: CPU, pc: Word) returns (e: Option<Fault>)
    requires c.Valid() && c.Ready()
    modifies c.mem`caches, c.mem`objs, c.mem`home
    ensures c.Valid() && e == PageFault(c.mem.flat, Fetching, pc, 4)
    ensures e.None? ==> c.mem.caches.fetchVPN == pc / PAGE
  {
    if pc / PAGE != c.mem.caches.fetchVPN {
      e := c.mem.Fetch(pc);
    } else {
      c.mem.FetchHit(pc);
      e := None;
    }
  }

  /** Brings pc's page into the fetch cache, calling the code hooks once it is known to be executable. */
  method FetchFor(c: CPU, pc: Word) returns (e: Option<Fault>)
    requires c.Valid() && c.Ready()
    modifies c`codeLog, c.mem`caches, c.mem`objs, c.mem`home
    ensures c.Valid() && e == PageFault(c.mem.flat, Fetching, pc, 4)
    ensures e.None? ==> c.mem.caches.fetchVPN == pc / PAGE
    ensures c.codeLog == if e.None? then old(c.codeLog) + Calls(c.codeHooks, pc, 4, 0) else old(c.codeLog)
  {
    e := Refetch(c, pc);
    if e.Some? {
      return;
    }
    if |c.codeHooks| != 0 {
      CallCodeHooks(c, pc);
      e := Refetch(c, pc);
    } else {
      assert c.codeLog + [] == c.codeLog;
    }
  }

  /** Executes the decoded instruction of the page instructions are fetched from. */
  method ExecuteAt(c: CPU, pc: Word) returns (stop: Option<Stop>)
    requires c.Valid() && c.Ready() && c.Interprets() && pc % 4 == 0 && c.mem.caches.fetchVPN == pc / PAGE
    modifies c`regs, c.mem
    ensures c.Valid()
    ensures var inst := c.mem.decode(FromLE(Peek(old(c.mem.flat), pc, 4)), pc);
      (c.regs, c.mem.View(), stop) == RunScript(c.meaning(inst, old(c.regs)), old(c.regs), old(c.mem.View()))
  {
    var inst := c.mem.CurrentInst(pc);
    stop := ExecuteInst(c, inst);
  }

  /** The step from s, given what its instruction did once it was fetched. */
  lemma StepOf(meaning: Meaning, decode: Decoder, s: State, fetched: State, r: Regs, m: Mem, stop: Option<Stop>)
    requires s.regs.pc % 4 == 0 && PageFault(s.mem.flat, Fetching, s.regs.pc, 4).None?
    requires fetched == s.(codeLog := s.codeLog + Calls(s.codeHooks, s.regs.pc, 4, 0))
    requires var inst := decode(FromLE(Peek(fetched.mem.flat, s.regs.pc, 4)), s.regs.pc);
      (r, m, stop) == RunScript(meaning(inst, fetched.regs), fetched.regs, fetched.mem)
    ensures Step(meaning, decode, s) ==
      (State(r, m, if stop.None? then s.icount + 1 else s.icount, s.codeHooks, fetched.codeLog), stop)
  {
    StepIs(meaning, decode, s, decode(FromLE(Peek(s.mem.flat, s.regs.pc, 4)), s.regs.pc), r, m, stop);
  }

  /** Executes the fetched instruction; s is the state before it was fetched. */
  method ExecuteFetched(c: CPU, pc: Word, ghost s: State) returns (stop: Option<Stop>)
    requires c.Valid() && c.Ready() && c.Interprets() && c.mem.caches.fetchVPN == pc / PAGE
    requires pc == s.regs.pc && pc % 4 == 0 && PageFault(s.mem.flat, Fetching, pc, 4).None?
    requires c.View() == s.(codeLog := s.codeLog + Calls(s.codeHooks, pc, 4, 0))
    modifies c`regs, c.mem
    ensures c.Valid()
    ensures Step(c.meaning, c.mem.decode, s) ==
      (c.View().(icount := if stop.None? then c.icount + 1 else c.icount), stop)
  {
    ghost var fetched := c.View();
    stop := ExecuteAt(c, pc);
    StepOf(c.meaning, c.mem.decode, s, fetched, c.regs, c.mem.View(), stop);
  }

  /** Executes the fetched instruction and counts it; s is the state before it was fetched. */
  method Retire(c: CPU, pc: Word, ghost s: State) returns (stop: Option<Stop>)
    requires c.Valid() && c.Ready() && c.Interprets() && c.icount < B64 - 1 && c.mem.caches.fetchVPN == pc / PAGE
    requires pc == s.regs.pc && pc % 4 == 0 && PageFault(s.mem.flat, Fetching, pc, 4).None?
    requires c.View() == s.(codeLog := s.codeLog + Calls(s.codeHooks, pc, 4, 0))
    modifies c`regs, c`icount, c.mem
    ensures c.Valid() && (c.View(), stop) == Step(c.meaning, c.mem.decode, s)
  {
    stop := ExecuteFetched(c, pc, s);
    if stop.None? {
      c.icount := c.icount + 1;
    }
  }

  /** The body of the loop: one instruction, through the fetch cache and the decoded page. */
  method OneInst(c: CPU) returns (stop: Option<Stop>)
    requires c.Valid() && c.Ready() && c.Interprets() && c.icount < B64 - 1
    modifies c`regs, c`icount, c`codeLog, c.mem
    ensures c.Valid() && (c.View(), stop) == Step(c.meaning, c.mem.decode, old(c.View()))
  {
    var pc := c.regs.pc;
    if pc % 4 != 0 {
      return Some(Misaligned(pc));
    }
    var e := FetchFor(c, pc);
    if e.Some? {
      return Some(Faulted(e.value));
    }
    stop := Retire(c, pc, old(c.View()));
  }

  /** One instruction, as a step of the plain loop. */
  method OneOf(c: CPU) returns (stop: Option<Stop>)
    requires c.Valid() && c.Ready() && c.Interprets() && c.icount < B64 - 1
    modifies c`regs, c`icount, c`codeLog, c.mem
    ensures c.Valid() && c.step(old(c.View())) == (c.View(), stop)
    ensures c.icount == old(c.icount) + (if stop.None? then 1 else 0) && stop != Some(Spinning)
  {
    StepCounts(c.meaning, c.mem.decode, c.View());
    stop := OneInst(c);
  }

  // ---- batches ---------------------------------------------------------------------------------------

  /** Where a run from s is: k instructions done, n of them left. */
  ghost predicate Along(step: Stepper, s: State, until: Word, left: nat, v: State, n: nat, k: nat) {
    Retires(step, s, until, k, v) && Plain(step, v, until, n) == Plain(step, s, until, left)
  }

  /** The inner loop: instructions up to the end of a batch. */
  method RunBatch(c: CPU, until: Word, batch: Word, ghost left: nat, ghost n: nat, ghost s: State, ghost k: nat)
    returns (r: Option<Stop>, ghost n': nat, ghost k': nat)
    requires c.Valid() && c.Ready() && c.Interprets() && (c.icount >= batch || c.icount + n >= batch)
    requires Along(c.step, s, until, left, c.View(), n, k)
    modifies c`regs, c`icount, c`codeLog, c.mem
    ensures c.Valid() && c.icount + n' == old(c.icount) + n && k' - k == c.icount - old(c.icount) >= 0
    ensures r.None? ==> c.icount >= batch && (c.icount == old(c.icount) || c.icount == batch)
    ensures r.None? ==> Along(c.step, s, until, left, c.View(), n', k')
    ensures r.Some? ==> !r.value.Spinning? && (c.View(), r.value) == Plain(c.step, s, until, left)
    ensures r.Some? ==> c.icount < batch && Halts(c.step, s, until, k')
  {
    n', k', r := n, k, None;
    while c.icount < batch
      invariant c.Valid() && c.icount + n' == old(c.icount) + n && k' - k == c.icount - old(c.icount) >= 0
      invariant (c.icount == old(c.icount) || c.icount <= batch) && Along(c.step, s, until, left, c.View(), n', k')
      decreases batch - c.icount
    {
      var e := BatchStep(c, until, left, n', s, k');
      if e.Some? {
        return e, n', k';
      }
      n', k' := n' - 1, k' + 1;
    }
  }

  /** One turn of the inner loop. */
  method BatchStep(c: CPU, until: Word, ghost left: nat, ghost n: nat, ghost s: State, ghost k: nat)
    returns (r: Option<Stop>)
    requires c.Valid() && c.Ready() && c.Interprets() && n > 0 && c.icount < B64 - 1
    requires Along(c.step, s, until, left, c.View(), n, k)
    modifies c`regs, c`icount, c`codeLog, c.mem
    ensures c.Valid() && c.icount == old(c.icount) + (if r.None? then 1 else 0)
    ensures r.None? ==> Along(c.step, s, until, left, c.View(), n - 1, k + 1)
    ensures r.Some? ==> !r.value.Spinning? && (c.View(), r.value) == Plain(c.step, s, until, left)
    ensures r.Some? ==> Halts(c.step, s, until, k)
  {
    if c.regs.pc == until {
      return Some(Finished);
    }
    ghost var before := c.View();
    r := OneOf(c);
    if r.None? {
      RetiresMore(c.step, s, until, k, before);
    }
  }

  /** Where a run stands at the head of a batch: k instructions done since s, n left. */
  ghost predicate AtHead(step: Stepper, s: State, until: Word, limit: Word, left: nat, v: State, n: nat, k: nat) {
    v.icount < B64 && s.icount + k == v.icount && k % STOP_CHECK_BATCH == 0
    && (v.icount + n == limit || (n == 0 && limit <= v.icount == s.icount))
    && Along(step, s, until, left, v, n, k)
  }

  /** How a run ends: as the plain loop does, unless it comes to a batch that would wrap the counter. */
  ghost predicate Ends(step: Stepper, s: State, until: Word, limit: Word, left: nat, v: State, stop: Stop) {
    (stop.Spinning? <==> Wraps(step, s, until, limit))
    && (stop.Spinning? ==> s.icount <= v.icount == WrapHead(s.icount) && v.icount <= limit
                           && Retires(step, s, until, v.icount - s.icount, v)
                           && Plain(step, s, until, left) == Plain(step, v, until, limit - v.icount))
    && (!stop.Spinning? ==> (v, stop) == Plain(step, s, until, left))
  }

  lemma SpinEnds(step: Stepper, s: State, until: Word, limit: Word, left: nat, v: State, n: nat, k: nat)
    requires AtHead(step, s, until, limit, left, v, n, k) && v.icount < limit && v.icount + STOP_CHECK_BATCH >= B64
    ensures Ends(step, s, until, limit, left, v, Spinning)
  {
    HeadsBelow(v.icount, s.icount);
    assert Reaches(step, s, until, WrapHead(s.icount) - s.icount);
  }

  lemma HaltEnds(step: Stepper, s: State, until: Word, limit: Word, left: nat, v: State, n: nat, k: nat, w: State,
      k': nat, stop: Stop)
    requires AtHead(step, s, until, limit, left, v, n, k) && v.icount + STOP_CHECK_BATCH < B64
    requires Halts(step, s, until, k') && s.icount + k' < v.icount + STOP_CHECK_BATCH && !stop.Spinning?
    requires (w, stop) == Plain(step, s, until, left)
    ensures Ends(step, s, until, limit, left, w, stop)
  {
    HeadsBelow(v.icount, s.icount);
    HaltedEarly(step, s, until, limit, k');
  }

  lemma LimitEnds(step: Stepper, s: State, until: Word, limit: Word, left: nat, v: State, n: nat, k: nat, w: State,
      k': nat)
    requires AtHead(step, s, until, limit, left, v, n, k) && (v.icount + STOP_CHECK_BATCH < B64 || limit <= v.icount)
    requires limit <= v.icount || limit <= v.icount + STOP_CHECK_BATCH
    requires Along(step, s, until, left, w, 0, k')
    ensures Ends(step, s, until, limit, left, w, Finished)
  {
    HeadsBelow(v.icount, s.icount);
  }

  /** Where a batch leads: to the next one, or to the end of the run. */
  ghost predicate Leads(step: Stepper, s: State, until: Word, limit: Word, left: nat, n: nat, w: State,
      stop: Option<Stop>, n': nat, k': nat)
  {
    if stop.None? then AtHead(step, s, until, limit, left, w, n', k') && n' < n
    else Ends(step, s, until, limit, left, w, stop.value)
  }

  /** A batch from v to w ended with r. */
  lemma BatchLeads(step: Stepper, s: State, until: Word, limit: Word, left: nat, v: State, n: nat, k: nat,
      batch: Word, w: State, r: Option<Stop>, n': nat, k': nat)
    requires AtHead(step, s, until, limit, left, v, n, k) && (v.icount < batch || limit <= v.icount)
    requires batch == (if (v.icount + STOP_CHECK_BATCH) % B64 > limit then limit
                       else (v.icount + STOP_CHECK_BATCH) % B64)
    requires w.icount + n' == v.icount + n && k' - k == w.icount - v.icount >= 0
    requires r.None? ==> batch <= w.icount < B64 && (w.icount == v.icount || w.icount == batch)
    requires r.None? ==> Along(step, s, until, left, w, n', k')
    requires r.Some? ==> !r.value.Spinning? && (w, r.value) == Plain(step, s, until, left)
    requires r.Some? ==> w.icount < batch && Halts(step, s, until, k')
    ensures Leads(step, s, until, limit, left, n, w, if r.None? && limit <= w.icount then Some(Finished) else r, n', k')
  {
    if r.Some? {
      HaltEnds(step, s, until, limit, left, v, n, k, w, k', r.value);
    } else if limit <= w.icount {
      LimitEnds(step, s, until, limit, left, v, n, k, w, k');
    }
  }

  /** One batch: where the next one starts, or how the run ends. */
  method NextBatch(c: CPU, until: Word, limit: Word, ghost left: nat, ghost n: nat, ghost s: State, ghost k: nat)
    returns (stop: Option<Stop>, ghost n': nat, ghost k': nat)
    requires c.Valid() && c.Ready() && c.Interprets() && AtHead(c.step, s, until, limit, left, c.View(), n, k)
    modifies c`regs, c`icount, c`codeLog, c.mem
    ensures c.Valid() && Leads(c.step, s, until, limit, left, n, c.View(), stop, n', k')
  {
    ghost var v := c.View();
    var batch := (c.icount + STOP_CHECK_BATCH) % B64;
    if batch > limit {
      batch := limit;
    }
    if batch <= c.icount < limit {
      // the counter is within a batch of wrapping: the loop makes no progress from here on
      SpinEnds(c.step, s, until, limit, left, v, n, k);
      return Some(Spinning), n, k;
    }
    stop, n', k' := RunBatch(c, until, batch, left, n, s, k);
    BatchLeads(c.step, s, until, limit, left, v, n, k, batch, c.View(), stop, n', k');
    if stop.None? && c.icount >= limit {
      stop := Some(Finished);
    }
  }

  /** Runs from PC until PC is until, count instructions have retired (when count is positive), or an error: in the
      state, and with the stop, of the plain loop. The exception is a run that reaches a batch whose end would wrap
      the counter. */
  method Run(c: CPU, until: Word, count: Word) returns (stop: Stop)
    requires c.Valid() && c.Ready() && c.Interprets()
    modifies c`regs, c`icount, c`codeLog, c.mem
    ensures c.Valid()
    ensures var limit, left := Limit(old(c.icount), count), Left(old(c.icount), count);
      Ends(c.step, old(c.View()), until, limit, left, c.View(), stop)
  {
    var limit := Limit(c.icount, count);
    ghost var left, k: nat := Left(c.icount, count), 0;
    ghost var n := left;
    while true
      invariant c.Valid() && AtHead(c.step, old(c.View()), until, limit, left, c.View(), n, k)
      decreases n
    {
      var r;
      r, n, k := NextBatch(c, until, limit, left, n, old(c.View()), k);
      if r.Some? {
        return r.value;
      }
    }
  }
}
