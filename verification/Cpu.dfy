/** The interpreter's state, and the execution of scripts against its caches. */
module Cpu {
  import opened Words
  import opened FlatMemory
  import opened Machine
  import opened Handlers
  import opened GuestMemory

  class CPU {
    const mem: Memory
    const other: Meaning                 // what the instructions outside the modelled handlers do
    ghost const meaning: Meaning         // what every handler does
    ghost const step: Stepper            // one instruction on the abstract machine
    var regs: Regs
    var icount: Word                     // instructions retired
    var codeHooks: seq<Hook>
    ghost var codeLog: seq<Event>        // every call made to a code hook

    ghost predicate Valid()
      reads this, mem, mem.pt
    {
      mem.Valid()
    }

    /** The constants that say what an instruction and a step do. */
    ghost predicate Interprets() {
      && Means(meaning, other)
      && forall s {:trigger Step(meaning, mem.decode, s)} :: step(s) == Step(meaning, mem.decode, s)
    }

    /** The page table is sound; running instructions never changes it. */
    ghost predicate Ready()
      reads mem.pt, mem.pt.Repr
    {
      mem.TableOk() && this !in mem.pt.Repr
    }

    ghost function View(): State
      reads this, mem
    {
      State(regs, mem.View(), icount, codeHooks, codeLog)
    }

    constructor (mem: Memory, other: Meaning, regs: Regs)
      requires mem.Valid() && mem.TableOk()
      ensures Valid() && Ready() && Interprets() && this.mem == mem && this.other == other
      ensures View() == State(regs, mem.View(), 0, [], [])
    {
      this.mem, this.other, this.regs := mem, other, regs;
      meaning := Handling(other);
      step := s => Step(Handling(other), mem.decode, s);
      icount, codeHooks, codeLog := 0, [], [];
    }

    /** Runs a handler given as a script. */
    method Execute(sc: Script) returns (stop: Option<Stop>)
      requires Valid() && Ready()
      modifies this`regs, mem
      ensures Valid() && (regs, mem.View(), stop) == RunScript(sc, old(regs), old(mem.View()))
    {
      var loaded: seq<Word> := [];
      for k := 0 to |sc.accs|
        invariant Valid()
        invariant Perform(old(mem.View()), sc.accs[..k]) == Performed(mem.View(), loaded, None)
      {
        var l, e := Access(sc.accs[k], loaded);
        assert sc.accs[..k + 1][..k] == sc.accs[..k];
        loaded := l;
        if e.Some? {
          PerformSplit(old(mem.View()), sc.accs, k + 1);
          RunIs(sc, regs, old(mem.View()));
          regs := sc.fault(loaded);
          return Some(Faulted(e.value));
        }
      }
      assert sc.accs[..|sc.accs|] == sc.accs;
      RunIs(sc, regs, old(mem.View()));
      match sc.done(loaded)
      case Next(r) => regs := r; return None;
      case Raise(r, e) => regs := r; return Some(Raised(e));
    }

    method Access(a: Acc, loaded: seq<Word>) returns (l: seq<Word>, e: Option<Fault>)
      requires Valid() && Ready()
      modifies mem
      ensures Valid() && Performed(mem.View(), l, e) == One(Performed(old(mem.View()), loaded, None), a)
    {
      l, e := loaded, None;
      match a
      case CheckRead(addr, size) =>
        var g := mem.GuestPage(Reading, addr, size);
        e := if g.Ok? then None else Some(g.fault);
      case CheckWrite(addr, bytes) =>
        e := mem.CheckWrite(addr, bytes);
      case LoadN(addr, n) =>
        var r := mem.ReadN(addr, n);
        if r.Ok? {
          l := l + [r.value];
        } else {
          e := Some(r.fault);
        }
      case StoreN(addr, n, v) =>
        e := mem.WriteHot(addr, n, v);
    }
  }
}
