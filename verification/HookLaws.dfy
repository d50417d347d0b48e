/** Memory hooks: each access calls every hook that watches its start address once, and no other hook. */
module HookLaws {
  import opened FlatMemory
  import opened Machine
  import opened Words
  import GuestMemory

  function CallsOf(es: seq<Event>, id: nat): nat {
    if |es| == 0 then 0 else CallsOf(es[..|es| - 1], id) + if es[|es| - 1].hook == id then 1 else 0
  }

  predicate Distinct(hs: seq<Hook>) {
    forall i, j :: 0 <= i < j < |hs| ==> hs[i].id != hs[j].id
  }

  /** The hook registered as id, if there is one, watches addr. */
  predicate WatchedBy(hs: seq<Hook>, id: nat, addr: nat) {
    exists k :: 0 <= k < |hs| && hs[k].id == id && Watches(hs[k], addr)
  }

  lemma CallsOfConcat(a: seq<Event>, e: Event, id: nat)
    ensures CallsOf(a + [e], id) == CallsOf(a, id) + if e.hook == id then 1 else 0
    ensures CallsOf(a + [], id) == CallsOf(a, id)
  {
    assert (a + [e])[..|a|] == a && a + [] == a;
  }

  /** One access calls a hook once if it watches the start address, and not at all otherwise. */
  lemma {:induction false} EachOnce(hs: seq<Hook>, addr: nat, size: nat, value: nat, id: nat)
    requires Distinct(hs)
    ensures CallsOf(Calls(hs, addr, size, value), id) == if WatchedBy(hs, id, addr) then 1 else 0
  {
    if |hs| > 0 {
      var k := |hs| - 1;
      var h := hs[k];
      EachOnce(hs[..k], addr, size, value, id);
      CallsOfConcat(Calls(hs[..k], addr, size, value), Event(h.id, addr, size, value), id);
      LastHook(hs, k, id, addr);
    }
  }

  lemma LastHook(hs: seq<Hook>, k: nat, id: nat, addr: nat)
    requires Distinct(hs) && |hs| == k + 1
    ensures WatchedBy(hs, id, addr) <==> WatchedBy(hs[..k], id, addr) || (hs[k].id == id && Watches(hs[k], addr))
    ensures hs[k].id == id ==> !WatchedBy(hs[..k], id, addr)
  {
    if WatchedBy(hs[..k], id, addr) {
      var j :| 0 <= j < k && hs[..k][j].id == id && Watches(hs[..k][j], addr);
      assert hs[j].id == id && Watches(hs[j], addr);
    }
    if WatchedBy(hs, id, addr) {
      var j :| 0 <= j < |hs| && hs[j].id == id && Watches(hs[j], addr);
      assert j < k ==> hs[..k][j].id == id;
    }
  }

  // ---- sequences of registrations, removals and accesses -----------------------------------------

  /** Read hooks and write hooks are registered apart; write says which. */
  datatype Step =
    | Add(write: bool, hook: Hook)
    | Remove(write: bool, id: nat)
    | Read(addr: Word, n: Size)
    | Write(addr: Word, n: Size, v: Word)

  function HooksOf(m: Mem, write: bool): seq<Hook> {
    if write then m.whooks else m.rhooks
  }

  function Next(m: Mem, step: Step): Mem {
    match step
    case Add(w, h) => if w then m.(whooks := m.whooks + [h]) else m.(rhooks := m.rhooks + [h])
    case Remove(w, id) => if w then m.(whooks := Without(m.whooks, id)) else m.(rhooks := Without(m.rhooks, id))
    case Read(addr, n) => Load(m, addr, n).0
    case Write(addr, n, v) => Store(m, addr, n, v % Pow256(n)).0
  }

  function After(m: Mem, steps: seq<Step>): Mem {
    if |steps| == 0 then m else Next(After(m, steps[..|steps| - 1]), steps[|steps| - 1])
  }

  /** The memory of the interpreter, caches and all, goes where the steps say. */
  method Play(mem: GuestMemory.Memory, steps: seq<Step>)
    requires mem.Valid() && mem.TableOk()
    modifies mem
    ensures mem.Valid() && mem.View() == After(old(mem.View()), steps)
  {
    for k := 0 to |steps|
      invariant mem.Valid() && mem.View() == After(old(mem.View()), steps[..k])
    {
      assert steps[..k + 1][..k] == steps[..k];
      PlayOne(mem, steps[k]);
    }
    assert steps[..|steps|] == steps;
  }

  method PlayOne(mem: GuestMemory.Memory, step: Step)
    requires mem.Valid() && mem.TableOk()
    modifies mem
    ensures mem.Valid() && mem.View() == Next(old(mem.View()), step)
  {
    match step {
      case Add(w, h) =>
        if w {
          mem.AddWriteHook(h.id, h.begin, h.end);
        } else {
          mem.AddReadHook(h.id, h.begin, h.end);
        }
      case Remove(w, id) =>
        if w {
          mem.RemoveWriteHook(id);
        } else {
          mem.RemoveReadHook(id);
        }
      case Read(addr, n) =>
        var r := mem.ReadN(addr, n);
      case Write(addr, n, v) =>
        var e := mem.WriteN(addr, n, v);
    }
  }

  /** The access does not fault, and a hook registered as id watches it. */
  predicate Seen(m: Mem, step: Step, id: nat) {
    match step
    case Read(addr, n) => AccessFault(m.flat, Reading, addr, n).None? && WatchedBy(m.rhooks, id, addr)
    case Write(addr, n, _) => AccessFault(m.flat, Writing, addr, n).None? && WatchedBy(m.whooks, id, addr)
    case _ => false
  }

  /** The accesses of a history that a hook watched while it was registered. */
  function Expected(m: Mem, steps: seq<Step>, id: nat): nat {
    if |steps| == 0 then 0
    else
      var k := |steps| - 1;
      Expected(m, steps[..k], id) + if Seen(After(m, steps[..k]), steps[k], id) then 1 else 0
  }

  /** Each registration is a new hook. */
  ghost predicate Fresh(m: Mem, steps: seq<Step>) {
    Distinct(m.rhooks) && Distinct(m.whooks)
    && (forall i, j :: 0 <= i < j < |steps| && steps[i].Add? && steps[j].Add? ==> steps[i].hook.id != steps[j].hook.id)
    && (forall i, h :: 0 <= i < |steps| && steps[i].Add? && (h in m.rhooks || h in m.whooks) ==>
      steps[i].hook.id != h.id)
  }

  lemma FreshPrefix(m: Mem, steps: seq<Step>, k: nat)
    requires Fresh(m, steps) && k <= |steps|
    ensures Fresh(m, steps[..k])
  {
  }

  lemma {:induction false} WithoutHas(hs: seq<Hook>, id: nat)
    requires Distinct(hs)
    ensures Distinct(Without(hs, id))
    ensures forall h :: h in Without(hs, id) <==> h in hs && h.id != id
  {
    if |hs| > 0 {
      var k := |hs| - 1;
      WithoutHas(hs[..k], id);
      assert hs == hs[..k] + [hs[k]];
      forall h | h in Without(hs[..k], id) ensures h.id != hs[k].id {
        assert h in hs[..k];
      }
    }
  }

  /** A registered hook was there from the start or has been added. */
  predicate Known(m: Mem, steps: seq<Step>, h: Hook) {
    h in m.rhooks || h in m.whooks || exists i :: 0 <= i < |steps| && steps[i].Add? && steps[i].hook == h
  }

  ghost predicate AllKnown(m: Mem, steps: seq<Step>, hs: seq<Hook>) {
    Distinct(hs) && forall h :: h in hs ==> Known(m, steps, h)
  }

  lemma KnownLater(m: Mem, steps: seq<Step>, k: nat, hs: seq<Hook>)
    requires k <= |steps| && AllKnown(m, steps[..k], hs)
    ensures AllKnown(m, steps, hs)
  {
    forall h | h in hs ensures Known(m, steps, h) {
      assert Known(m, steps[..k], h);
      if i :| 0 <= i < k && steps[..k][i].Add? && steps[..k][i].hook == h {
        assert steps[i].Add? && steps[i].hook == h;
      }
    }
  }

  lemma KnownAdds(m: Mem, steps: seq<Step>, k: nat, hs: seq<Hook>)
    requires |steps| == k + 1 && Fresh(m, steps) && steps[k].Add? && AllKnown(m, steps[..k], hs)
    ensures AllKnown(m, steps, hs + [steps[k].hook])
  {
    KnownLater(m, steps, k, hs);
    forall j | 0 <= j < |hs| ensures hs[j].id != steps[k].hook.id {
      assert hs[j] in hs;
      assert Known(m, steps[..k], hs[j]);
      if i :| 0 <= i < k && steps[..k][i].Add? && steps[..k][i].hook == hs[j] {
        assert steps[i].Add? && steps[i].hook == hs[j];
      }
    }
  }

  /** Registered hooks stay distinct. */
  lemma {:induction false} HooksKnown(m: Mem, steps: seq<Step>, write: bool)
    requires Fresh(m, steps)
    ensures AllKnown(m, steps, HooksOf(After(m, steps), write))
  {
    if |steps| > 0 {
      var k := |steps| - 1;
      var hs := HooksOf(After(m, steps[..k]), write);
      FreshPrefix(m, steps, k);
      HooksKnown(m, steps[..k], write);
      KnownLater(m, steps, k, hs);
      if steps[k].Add? {
        KnownAdds(m, steps, k, hs);
      } else if steps[k].Remove? {
        WithoutHas(hs, steps[k].id);
      }
    }
  }

  lemma {:induction false} CallsOfAppend(a: seq<Event>, b: seq<Event>, id: nat)
    ensures CallsOf(a + b, id) == CallsOf(a, id) + CallsOf(b, id)
  {
    if |b| == 0 {
      assert a + b == a;
    } else {
      var k := |b| - 1;
      CallsOfAppend(a, b[..k], id);
      assert (a + b)[..|a + b| - 1] == a + b[..k];
    }
  }

  lemma OneStep(m: Mem, step: Step, id: nat)
    requires Distinct(m.rhooks) && Distinct(m.whooks)
    ensures CallsOf(Next(m, step).log, id) == CallsOf(m.log, id) + if Seen(m, step, id) then 1 else 0
  {
    match step
    case Read(addr, n) =>
      EachOnce(m.rhooks, addr, n, 0, id);
      CallsOfAppend(m.log, Calls(m.rhooks, addr, n, 0), id);
    case Write(addr, n, v) =>
      EachOnce(m.whooks, addr, n, v % Pow256(n), id);
      CallsOfAppend(m.log, Calls(m.whooks, addr, n, v % Pow256(n)), id);
    case _ =>
  }

  /** Over any history of registrations, removals and accesses, a hook has been called exactly once for each access it
      watched while it was registered. */
  lemma {:induction false} HooksFireExactly(m: Mem, steps: seq<Step>, id: nat)
    requires Fresh(m, steps)
    ensures CallsOf(After(m, steps).log, id) == CallsOf(m.log, id) + Expected(m, steps, id)
  {
    if |steps| > 0 {
      var k := |steps| - 1;
      FreshPrefix(m, steps, k);
      HooksFireExactly(m, steps[..k], id);
      HooksKnown(m, steps[..k], false);
      HooksKnown(m, steps[..k], true);
      OneStep(After(m, steps[..k]), steps[k], id);
    }
  }
}
