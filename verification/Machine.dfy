/** The interpreter without caches: registers, handlers as scripts of memory accesses, and the plain run loop. */
module Machine {
  import opened Words
  import opened Instructions
  import opened FlatMemory
  import opened Lanes

  type RegFile = r: seq<Word> | |r| == 256 witness seq<Word>(256, _ => 0)
  type VecFile = v: seq<Vec> | |v| == 32 witness seq<Vec>(32, _ => Vec(0, 0))

  /** The architectural registers, including the exclusive monitor. */
  datatype Regs = Regs(r: RegFile, pc: Word, nzcv: nat, v: VecFile, fpcr: nat, fpsr: nat, tpidr: Word, tpidrro: Word,
                       exclAddr: Word, exclVal: Word, exclVal2: Word, exclSize: nat, exclValid: bool)

  type Size = n: nat | AccessSize(n) witness 1
  type Span = n: nat | 0 < n <= PAGE witness 1

  /** One call a handler makes on guest memory. */
  datatype Acc =
    | CheckRead(addr: Word, size: nat)
    | CheckWrite(addr: Word, bytes: Span)
    | LoadN(addr: Word, n: Size)
    | StoreN(addr: Word, n: Size, v: Word)

  datatype Outcome = Next(regs: Regs) | Raise(regs: Regs, error: nat)

  /** A handler: the accesses it makes in order, what it does with the values loaded,
      and the registers it leaves if an access faults after the given loads. */
  datatype Script = Script(accs: seq<Acc>, done: seq<Word> -> Outcome, fault: seq<Word> -> Regs)

  datatype Performed = Performed(mem: Mem, loaded: seq<Word>, fault: Option<Fault>)

  function One(p: Performed, a: Acc): Performed {
    match a
    case CheckRead(addr, size) => p.(fault := PageFault(p.mem.flat, Reading, addr, size))
    case CheckWrite(addr, bytes) => p.(fault := WriteCheck(p.mem.flat, addr, bytes))
    case LoadN(addr, n) =>
      var (m, r) := Load(p.mem, addr, n);
      if r.Ok? then Performed(m, p.loaded + [r.value], None) else Performed(m, p.loaded, Some(r.fault))
    case StoreN(addr, n, v) =>
      var (m, e) := Store(p.mem, addr, n, v);
      Performed(m, p.loaded, e)
  }

  function Then(p: Performed, a: Acc): Performed {
    if p.fault.Some? then p else One(p, a)
  }

  function Start(m: Mem): Performed {
    Performed(m, [], None)
  }

  /** The accesses in order, up to the first that faults. */
  function Perform(m: Mem, accs: seq<Acc>): Performed {
    if |accs| == 0 then Start(m) else Then(Perform(m, accs[..|accs| - 1]), accs[|accs| - 1])
  }

  lemma PerformSnoc(m: Mem, accs: seq<Acc>, a: Acc)
    ensures Perform(m, accs + [a]) == Then(Perform(m, accs), a)
  {
    assert (accs + [a])[..|accs|] == accs;
  }

  lemma PerformNext(m: Mem, accs: seq<Acc>, k: nat)
    requires k < |accs|
    ensures Perform(m, accs[..k + 1]) == Then(Perform(m, accs[..k]), accs[k])
  {
    PerformSnoc(m, accs[..k], accs[k]);
    assert accs[..k] + [accs[k]] == accs[..k + 1];
  }

  /** A script whose first k accesses end in a fault ends there. */
  lemma FaultEnds(sc: Script, s: Regs, m: Mem, k: nat)
    requires k <= |sc.accs| && Perform(m, sc.accs[..k]).fault.Some?
    ensures var p := Perform(m, sc.accs[..k]);
      RunScript(sc, s, m) == (sc.fault(p.loaded), p.mem, Some(Faulted(p.fault.value)))
  {
    PerformSplit(m, sc.accs, k);
  }

  /** A script whose accesses all succeed commits the values they loaded. */
  lemma AllDone(sc: Script, s: Regs, m: Mem, p: Performed)
    requires Perform(m, sc.accs[..|sc.accs|]) == p && p.fault.None? && sc.done(p.loaded).Next?
    ensures RunScript(sc, s, m) == (sc.done(p.loaded).regs, p.mem, None)
  {
    assert sc.accs[..|sc.accs|] == sc.accs;
  }

  lemma Perform1(m: Mem, a: Acc)
    ensures Perform(m, [a]) == One(Start(m), a)
  {
    PerformSnoc(m, [], a);
    assert [] + [a] == [a];
  }

  lemma Perform3(m: Mem, a: Acc, b: Acc, c: Acc)
    ensures Perform(m, [a, b, c]) == Then(Then(One(Start(m), a), b), c)
  {
    Perform1(m, a);
    PerformSnoc(m, [a], b);
    PerformSnoc(m, [a, b], c);
    assert [a] + [b] == [a, b] && [a, b] + [c] == [a, b, c];
  }

  lemma {:induction false} PerformSplit(m: Mem, accs: seq<Acc>, k: nat)
    requires k <= |accs|
    ensures var p := Perform(m, accs[..k]);
      p.fault.Some? ==> Perform(m, accs) == p
    decreases |accs| - k
  {
    if k == |accs| {
      assert accs[..k] == accs;
    } else {
      PerformSplit(m, accs, k + 1);
      assert accs[..k + 1][..k] == accs[..k];
    }
  }

  // ---- one instruction and the plain loop --------------------------------------------

  datatype State = State(regs: Regs, mem: Mem, icount: nat, codeHooks: seq<Hook>, codeLog: seq<Event>)
  datatype Stop = Finished | Misaligned(pc: Word) | Faulted(fault: Fault) | Raised(error: nat) | Spinning

  type Decoder = (nat, nat) -> Inst
  type Meaning = (Inst, Regs) -> Script

  /** What the interpreter does with one handler: the register and memory effects, and why it stopped if it did. */
  function RunScript(sc: Script, regs: Regs, mem: Mem): (Regs, Mem, Option<Stop>) {
    var p := Perform(mem, sc.accs);
    if p.fault.Some? then (sc.fault(p.loaded), p.mem, Some(Faulted(p.fault.value)))
    else match sc.done(p.loaded)
      case Next(r) => (r, p.mem, None)
      case Raise(r, e) => (r, p.mem, Some(Raised(e)))
  }

  lemma RunIs(sc: Script, s: Regs, m: Mem)
    ensures var p := Perform(m, sc.accs);
      RunScript(sc, s, m) ==
      if p.fault.Some? then (sc.fault(p.loaded), p.mem, Some(Faulted(p.fault.value)))
      else match sc.done(p.loaded)
        case Next(r) => (r, p.mem, None)
        case Raise(r, e) => (r, p.mem, Some(Raised(e)))
  {
  }

  /** Fetch the four bytes memory holds at pc now, decode them, execute them. */
  function Step(meaning: Meaning, decode: Decoder, s: State): (State, Option<Stop>) {
    var pc := s.regs.pc;
    if pc % 4 != 0 then (s, Some(Misaligned(pc)))
    else
      match PageFault(s.mem.flat, Fetching, pc, 4)
      case Some(f) => (s, Some(Faulted(f)))
      case None =>
        var inst := decode(FromLE(Peek(s.mem.flat, pc, 4)), pc);
        var (r, m, stop) := RunScript(meaning(inst, s.regs), s.regs, s.mem);
        (State(r, m, if stop.None? then s.icount + 1 else s.icount, s.codeHooks,
               s.codeLog + Calls(s.codeHooks, pc, 4, 0)), stop)
  }

  lemma StepIs(meaning: Meaning, decode: Decoder, s: State, inst: Inst, r: Regs, m: Mem, stop: Option<Stop>)
    requires s.regs.pc % 4 == 0 && PageFault(s.mem.flat, Fetching, s.regs.pc, 4).None?
    requires inst == decode(FromLE(Peek(s.mem.flat, s.regs.pc, 4)), s.regs.pc)
    requires (r, m, stop) == RunScript(meaning(inst, s.regs), s.regs, s.mem)
    ensures Step(meaning, decode, s) ==
      (State(r, m, if stop.None? then s.icount + 1 else s.icount, s.codeHooks,
             s.codeLog + Calls(s.codeHooks, s.regs.pc, 4, 0)), stop)
  {
  }

  type Stepper = State -> (State, Option<Stop>)

  /** The plain loop: if pc is until, stop; otherwise step; at most n times. */
  function Plain(step: Stepper, s: State, until: Word, n: nat): (State, Stop)
    decreases n
  {
    if n == 0 || s.regs.pc == until then (s, Finished)
    else
      match step(s)
      case (s', Some(stop)) => (s', stop)
      case (s', None) => Plain(step, s', until, n - 1)
  }

  /** k steps lead from s to s', each succeeding and none starting at until. */
  ghost predicate Retires(step: Stepper, s: State, until: Word, k: nat, s': State)
    decreases k
  {
    if k == 0 then s' == s
    else s.regs.pc != until && step(s).1.None? && Retires(step, step(s).0, until, k - 1, s')
  }

  /** A run finishes only by retiring min(n, steps to until) instructions without an error. */
  lemma {:induction false} PlainFinishes(step: Stepper, s: State, until: Word, n: nat) returns (k: nat)
    requires Plain(step, s, until, n).1.Finished?
    requires forall s :: step(s).1 != Some(Finished)
    ensures k <= n && Retires(step, s, until, k, Plain(step, s, until, n).0)
    ensures k == n || Plain(step, s, until, n).0.regs.pc == until
    decreases n
  {
    if n > 0 && s.regs.pc != until {
      k := PlainFinishes(step, step(s).0, until, n - 1);
      k := k + 1;
    } else {
      k := 0;
    }
  }

  /** And retiring that many instructions is what a run does. */
  lemma {:induction false} RetiringFinishes(step: Stepper, s: State, until: Word, n: nat, k: nat, s': State)
    requires Retires(step, s, until, k, s') && k <= n && (k == n || s'.regs.pc == until)
    ensures Plain(step, s, until, n) == (s', Finished)
    decreases k
  {
    if k > 0 {
      RetiringFinishes(step, step(s).0, until, n - 1, k - 1, s');
    }
  }

  /** Each step of the interpreter counts one instruction, and none reports that the run finished. */
  lemma StepCounts(meaning: Meaning, decode: Decoder, s: State)
    ensures var (s', stop) := Step(meaning, decode, s);
      s'.icount == s.icount + (if stop.None? then 1 else 0) && stop != Some(Finished) && stop != Some(Spinning)
  {
  }
}
