/** The interpreter's own run loop keeps the register rule: what every run of the plain loop keeps, `Run` keeps. */
module RunLaws {
  import opened Words
  import opened Instructions
  import opened FlatMemory
  import opened Machine
  import opened LoadStore
  import opened Cpu
  import opened RunLoop
  import opened Decode
  import opened Runs
  import opened Handlers

  // ---- the same steps, the same runs -----------------------------------------------------------

  ghost predicate SameSteps(step: Stepper, other: Stepper) {
    forall s :: step(s) == other(s)
  }

  lemma {:induction false} SameRun(step: Stepper, other: Stepper, s: State, until: Word, n: nat)
    requires SameSteps(step, other)
    ensures Plain(step, s, until, n) == Plain(other, s, until, n)
    decreases n
  {
    if n > 0 && s.regs.pc != until {
      SameRun(step, other, step(s).0, until, n - 1);
    }
  }

  /** The memory decodes as the modelled decoders do, with rest for the words they do not accept. */
  ghost predicate DecodesBy(decode: Decoder, rest: Decoder) {
    forall raw, pc :: decode(raw, pc) == Decoding(rest, raw, pc)
  }

  lemma StepAgrees(meaning: Meaning, other: Meaning, decode: Decoder, rest: Decoder, s: State)
    requires Means(meaning, other) && DecodesBy(decode, rest)
    ensures Step(meaning, decode, s) == Stepping(rest, other)(s)
  {
    var raw, pc := FromLE(Peek(s.mem.flat, s.regs.pc, 4)), s.regs.pc;
    assert decode(raw, pc) == Decoding(rest, raw, pc);
    assert meaning(decode(raw, pc), s.regs) == Handle(Decoding(rest, raw, pc), s.regs, other);
  }

  // ---- what a run keeps ---------------------------------------------------------------------------

  /** However a run ends, it ends in a state the plain loop reaches. */
  lemma EndsReached(step: Stepper, s: State, until: Word, limit: Word, left: nat, v: State, stop: Stop)
      returns (n: nat)
    requires Ends(step, s, until, limit, left, v, stop) && left == (if limit < s.icount then 0 else limit - s.icount)
    ensures n <= left && Plain(step, s, until, n).0 == v
  {
    if stop.Spinning? {
      n := v.icount - s.icount;
      RetiringFinishes(step, s, until, n, n, v);
    } else {
      n := left;
    }
  }

  lemma {:induction false} AvoidsFewer(step: Stepper, s: State, until: Word, n: nat, k: nat)
    requires Avoids(step, s, until, n) && k <= n
    ensures Avoids(step, s, until, k)
    decreases n
  {
    if k > 0 && s.regs.pc != until && step(s).1.None? {
      AvoidsFewer(step, step(s).0, until, n - 1, k - 1);
    }
  }

  /** Runs a program and keeps the register rule: the zero register reads zero afterwards, and a run that executes no
      word that names the stack pointer leaves it alone. */
  method RunByTheRule(c: CPU, until: Word, count: Word, ghost rest: Decoder) returns (stop: Stop)
    requires c.Valid() && c.Ready() && c.Interprets() && DecodesBy(c.mem.decode, rest)
    requires RestLeaves(rest, c.other, ZR) && RestLeaves(rest, c.other, SP)
    modifies c`regs, c`icount, c`codeLog, c.mem
    ensures c.Valid()
    ensures var limit, left := Limit(old(c.icount), count), Left(old(c.icount), count);
      Ends(c.step, old(c.View()), until, limit, left, c.View(), stop)
    ensures old(c.regs).r[ZR] == 0 ==> c.regs.r[ZR] == 0
    ensures Avoids(Stepping(rest, c.other), old(c.View()), until, Left(old(c.icount), count)) ==>
      c.regs.r[SP] == old(c.regs).r[SP]
  {
    ghost var s, left, limit := c.View(), Left(c.icount, count), Limit(c.icount, count);
    forall x ensures c.step(x) == Stepping(rest, c.other)(x) {
      StepAgrees(c.meaning, c.other, c.mem.decode, rest, x);
    }
    stop := Run(c, until, count);
    RuleKept(c.step, rest, c.other, s, until, limit, left, c.View(), stop);
  }

  lemma RuleKept(step: Stepper, rest: Decoder, other: Meaning, s: State, until: Word, limit: Word, left: nat,
      v: State, stop: Stop)
    requires SameSteps(step, Stepping(rest, other)) && RestLeaves(rest, other, ZR) && RestLeaves(rest, other, SP)
    requires Ends(step, s, until, limit, left, v, stop) && left == (if limit < s.icount then 0 else limit - s.icount)
    ensures s.regs.r[ZR] == 0 ==> v.regs.r[ZR] == 0
    ensures Avoids(Stepping(rest, other), s, until, left) ==> v.regs.r[SP] == s.regs.r[SP]
  {
    var n := EndsReached(step, s, until, limit, left, v, stop);
    SameRun(step, Stepping(rest, other), s, until, n);
    if s.regs.r[ZR] == 0 {
      RunKeepsZero(rest, other, s, until, n);
    }
    if Avoids(Stepping(rest, other), s, until, left) {
      AvoidsFewer(Stepping(rest, other), s, until, left, n);
      RunKeepsSp(rest, other, s, until, n);
    }
  }

  // ---- the other words -------------------------------------------------------------------------------

  /** Handlers that write their destination, if they give an integer result, and no other register. */
  ghost predicate WritesRd(other: Meaning, gives: Handler -> bool) {
    forall i: Inst, s, l, k: nat :: k < 256 && (k != i.rd || !gives(i.fn)) ==> Leaves(other(i, s), s, l, k)
  }

  /** Decoding that makes register 31 no integer destination but discards it. */
  ghost predicate AvoidsSlots(rest: Decoder, gives: Handler -> bool) {
    forall raw: Raw, pc: Word :: Decoded(raw, pc).None? ==>
      var i := rest(raw, pc); i.fn.Other? && (gives(i.fn) ==> i.rd != ZR && i.rd != SP)
  }

  /** The hypothesis on the other words holds of decoders and handlers such as those of the moves from system registers
      and of the vector instructions: each writes one register at most, never through number 31. */
  lemma OthersLeave(rest: Decoder, other: Meaning, gives: Handler -> bool)
    requires WritesRd(other, gives) && AvoidsSlots(rest, gives)
    ensures RestLeaves(rest, other, ZR) && RestLeaves(rest, other, SP)
  {
    forall raw: Raw, pc: Word, s, l | Decoded(raw, pc).None?
      ensures Leaves(Handle(rest(raw, pc), s, other), s, l, ZR) && Leaves(Handle(rest(raw, pc), s, other), s, l, SP) {
      var i := rest(raw, pc);
      assert Handle(i, s, other) == other(i, s);
    }
  }
}
