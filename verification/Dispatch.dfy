/** Every handler, executed as the interpreter does: specialised ones inline, the others access by access. */
module Dispatch {
  import opened Words
  import opened Instructions
  import opened FlatMemory
  import opened Machine
  import opened LoadStore
  import opened Arithmetic
  import opened Handlers
  import opened Cpu
  import opened LoadStoreOps
  import opened StructureOps

  /** Executes one decoded instruction. */
  method ExecuteInst(c: CPU, i: Inst) returns (stop: Option<Stop>)
    requires c.Valid() && c.Ready()
    modifies c`regs, c.mem
    ensures c.Valid()
    ensures (c.regs, c.mem.View(), stop) == RunScript(Handle(i, old(c.regs), c.other), old(c.regs), old(c.mem.View()))
  {
    match i.fn
    case LoadOff | LoadWb | LoadReg | StoreOff | StoreWb | StoreReg => stop := Generic(c, i);
    case Ldr64Off | Ldr32Off | Ldrb64Off | Ldr64Reg | Ldr32Reg | Ldrb64Reg => stop := HotLoads(c, i);
    case Str64Off | Str32Off | Strb64Off | Str64Reg | Str32Reg | Strb64Reg => stop := HotStores(c, i);
    case Ldp64Off => stop := OpLdp64Off(c, i);
    case Stp64Off => stop := OpStp64Off(c, i);
    case DcZva => stop := OpDcZva(c, i);
    case SimdLoadMulti | SimdStoreMulti => stop := Structures(c, i);
    case Arith(_, _, _, _) | Data(_, _) => stop := Computed(c, i);
    case _ => stop := c.Execute(Handle(i, c.regs, c.other));
  }

  method Generic(c: CPU, i: Inst) returns (stop: Option<Stop>)
    requires c.Valid() && c.Ready() && i.fn in {LoadOff, LoadWb, LoadReg, StoreOff, StoreWb, StoreReg}
    modifies c`regs, c.mem
    ensures c.Valid()
    ensures (c.regs, c.mem.View(), stop) == RunScript(Handle(i, old(c.regs), c.other), old(c.regs), old(c.mem.View()))
  {
    match i.fn
    case LoadOff => stop := LoadAt(c, i, AddrOff(i, c.regs), false);
    case LoadWb => stop := LoadAt(c, i, AddrFor(i, c.regs), true);
    case LoadReg => stop := LoadAt(c, i, AddrReg(i, c.regs), false);
    case StoreOff => stop := StoreAt(c, i, AddrOff(i, c.regs), false);
    case StoreWb => stop := StoreAt(c, i, AddrFor(i, c.regs), true);
    case StoreReg => stop := StoreAt(c, i, AddrReg(i, c.regs), false);
  }

  predicate OffForm(fn: Handler) {
    fn.Ldr64Off? || fn.Ldr32Off? || fn.Ldrb64Off? || fn.Str64Off? || fn.Str32Off? || fn.Strb64Off?
  }

  predicate IsHotLoad(fn: Handler) {
    fn.Ldr64Off? || fn.Ldr32Off? || fn.Ldrb64Off? || fn.Ldr64Reg? || fn.Ldr32Reg? || fn.Ldrb64Reg?
  }

  predicate IsHotStore(fn: Handler) {
    fn.Str64Off? || fn.Str32Off? || fn.Strb64Off? || fn.Str64Reg? || fn.Str32Reg? || fn.Strb64Reg?
  }

  function HotAddr(i: Inst, s: Regs): Word {
    if OffForm(i.fn) then AddrOff(i, s) else AddrReg(i, s)
  }

  function HotBytes(fn: Handler): Machine.Size {
    if fn.Ldr64Off? || fn.Ldr64Reg? || fn.Str64Off? || fn.Str64Reg? then 8
    else if fn.Ldr32Off? || fn.Ldr32Reg? || fn.Str32Off? || fn.Str32Reg? then 4
    else 1
  }

  lemma HotHandlers(i: Inst, s: Regs, other: Meaning)
    ensures IsHotLoad(i.fn) ==> Handle(i, s, other) == HotLoad(i, s, HotAddr(i, s), HotBytes(i.fn))
    ensures IsHotStore(i.fn) ==> Handle(i, s, other) == HotStore(i, s, HotAddr(i, s), HotBytes(i.fn))
  {
  }

  method HotLoads(c: CPU, i: Inst) returns (stop: Option<Stop>)
    requires c.Valid() && c.Ready() && IsHotLoad(i.fn)
    modifies c`regs, c.mem
    ensures c.Valid()
    ensures (c.regs, c.mem.View(), stop) == RunScript(Handle(i, old(c.regs), c.other), old(c.regs), old(c.mem.View()))
  {
    HotHandlers(i, c.regs, c.other);
    stop := HotLoadAt(c, i, HotAddr(i, c.regs), HotBytes(i.fn));
  }

  method HotStores(c: CPU, i: Inst) returns (stop: Option<Stop>)
    requires c.Valid() && c.Ready() && IsHotStore(i.fn)
    modifies c`regs, c.mem
    ensures c.Valid()
    ensures (c.regs, c.mem.View(), stop) == RunScript(Handle(i, old(c.regs), c.other), old(c.regs), old(c.mem.View()))
  {
    HotHandlers(i, c.regs, c.other);
    stop := HotStoreAt(c, i, HotAddr(i, c.regs), HotBytes(i.fn));
  }

  lemma StructureHandlers(i: Inst, s: Regs, other: Meaning)
    requires i.fn == SimdLoadMulti || i.fn == SimdStoreMulti
    ensures Handle(i, s, other) ==
      if !GoodSimd(i) then other(i, s)
      else if i.fn == SimdLoadMulti then SimdLoadScript(i, s)
      else SimdStoreScript(i, s)
  {
  }

  method Structures(c: CPU, i: Inst) returns (stop: Option<Stop>)
    requires c.Valid() && c.Ready() && (i.fn == SimdLoadMulti || i.fn == SimdStoreMulti)
    modifies c`regs, c.mem
    ensures c.Valid()
    ensures (c.regs, c.mem.View(), stop) == RunScript(Handle(i, old(c.regs), c.other), old(c.regs), old(c.mem.View()))
  {
    StructureHandlers(i, c.regs, c.other);
    if !GoodSimd(i) {
      stop := c.Execute(c.other(i, c.regs));
    } else if i.fn == SimdLoadMulti {
      stop := OpSimdLoadMulti(c, i);
    } else {
      stop := OpSimdStoreMulti(c, i);
    }
  }

  /** An arithmetic instruction touches no memory. */
  method Computed(c: CPU, i: Inst) returns (stop: Option<Stop>)
    requires c.Valid() && c.Ready() && (i.fn.Arith? || i.fn.Data?)
    modifies c`regs
    ensures c.Valid()
    ensures (c.regs, c.mem.View(), stop) == RunScript(Handle(i, old(c.regs), c.other), old(c.regs), old(c.mem.View()))
  {
    ComputedRun(i, c.regs, c.other, c.mem.View());
    c.regs := Exec(i, c.regs);
    return None;
  }

  lemma ComputedRun(i: Inst, s: Regs, other: Meaning, m: Mem)
    requires (i.fn.Arith? || i.fn.Data?)
    ensures RunScript(Handle(i, s, other), s, m) == (Exec(i, s), m, None)
  {
  }
}
