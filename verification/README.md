# The AArch64 interpreter and its runtime, modelled and proved

This project models the hard core of an Android emulator written in Go: an
AArch64 interpreter with its guest memory, its loader's packed relocations, its
cooperative thread scheduler and its address-space allocator. Every claim below
is a Dafny contract or lemma; nothing was executed. `dafny verify
dfyconfig.toml` checks everything.

## What is modelled, and what is proved

**Guest memory and the run loop.** `FlatMemory.dfy` says what memory means: a map
from page numbers to a protection and 4096 bytes, and a log of hook calls.
`PageTable.dfy` is the three-level table over real nested arrays. `Memory.dfy` is
the memory with its read TLB, write TLB, code-page TLB, one-entry fetch cache,
shared zero page, lazily allocated pages and lazily decoded instructions. Every
operation keeps one invariant (`Valid`: a cache hit names what the table names,
with the permission it stands for; a writable hit has its own array and no
decoded code; decoded instructions agree with the bytes) and its contract equates
the new flat view with the flat operation on the old one. `Machine.dfy` has the
plain loop: fetch four bytes, decode, execute. `Cpu.dfy` is the interpreter's
state, `Dispatch.dfy` executes each instruction by its own handler, and
`RunLoop.dfy` has the loop with 512-instruction batches, count limit, fetch cache
and code hooks, and proves it equal to the plain loop. Self-modifying code is
transparent because the plain loop has nothing to flush.

**Load and store handlers.** A handler is a *script*: the accesses it makes in
order, what it commits from the loaded values, what a fault leaves behind
(`LoadStore.dfy`; `Handlers.dfy` gives every instruction its script).
`LoadStoreOps.dfy` and `StructureOps.dfy` have the handlers as methods over the
caches, with inline TLB checks and lane loops, each proved equal to its script on
flat memory. `StoreLaws.dfy` proves stores all-or-nothing, `HotPaths.dfy` compares
the specialised handlers with the generic ones, `StructureLaws.dfy` and
`RoundTrips.dfy` prove what multi-part stores write, that the matching loads undo
them, and when store-exclusives succeed. `Decode.dfy` decodes the whole load and
store group and carries these results to every accepted word, together with the
rule for register 31 (DDI 0487, section C1.2.5); `Transfers.dfy` proves which
integer loads and stores are accepted, and that they do what the architecture reads
off the word. `Runs.dfy` proves the register rule for whole runs
of loads, stores, branches and data processing: the zero register reads zero in
every state, and the stack pointer moves only where a word names it as a destination
or as a base it writes back; which words do is proved exactly.
`RunLaws.dfy` concludes the same of the interpreter's own run loop. What remains a
hypothesis is that the words outside these decoders (SIMD and floating-point
operations, moves of system registers, exceptions) leave the two slots alone;
`RunLaws.OthersLeave` shows handlers that do. `HookLaws.dfy` proves that hooks fire
exactly.

**Integer semantics.** `Flags.dfy` (carry chains of any length, the table of
condition codes; DDI 0487, section C1.2.4), `Bitfield.dfy` (DecodeBitMasks and
UBFM/SBFM/BFM for every immr and imms at both sizes), `WordBits.dfy` (words as
their bits and back), `Lanes.dfy`, `Permute.dfy` and `PermuteWords.dfy` (lane
access, ZIP/UZP/TRN, and both as decoded words on the register file), `Half.dfy`
(binary16 conversion rounded to nearest, ties to even; section 4.3.1 of IEEE
754-2019).

**Data processing and branches.** `Arithmetic.dfy`, `DataBits.dfy` and
`DataOps.dfy` have the handlers, `DataDecode.dfy` their decoders, immediate and
register forms alike. `DataLaws.dfy` proves what the handlers' bit tricks compute;
`DataProc.dfy` (arithmetic) and `DataRefine.dfy` (the rest) prove them against the
architecture's operations and its rule for register 31. `DataTable.dfy` has the
encoding tables of the base instruction set (DDI 0487, section C4.1) and proves that
the decoder accepts exactly the words they allocate, and that each, decoded and executed, does what the
tables and the operations say. `Jumps.dfy` and `Branches.dfy` do the same for
branches.

**Packed relocations.** `Sleb.dfy` (signed LEB128, section 7.6 of DWARF v5),
`Packed.dfy` and `PackedLaws.dfy` (APS2), `Relr.dfy` (RELR of the generic ELF
ABI) with plain REL records: the decoding loops, their counts on arbitrary input,
and that they invert the encoders.

**Scheduler and allocator.** `Scheduler.dfy`: fibers, saved contexts with owners,
slice budgets and rounds, for any guest behaviour. `Space.dfy` and
`SpaceLaws.dfy`: the region table in 64-bit arithmetic, each operation's effect on
every address, and whole runs.

## Where the code differs from what one might expect

- A specialised store of 4 bytes or 1 byte hands a write hook the whole register,
  the generic store only the stored bytes (`HotPaths.HotStoreIsStore` gives the
  exact condition, `HotPaths.HotStoreHookDiffers` an instance).
- `Run` computes its limit in 64 bits: if the instruction counter plus the count
  wraps, the run retires nothing (`RunLoop.LeftIs`). A batch whose end would wrap
  makes no progress, for ever, which the model reports as `Spinning`. `RunLoop.Run`
  proves when: exactly if the run, short of its limit, gets to the one count in the
  last 512 that is congruent to its first (`RunLoop.Wraps`; `RunLoop.CountWraps` and
  `RunLoop.WrapsAtOnce` are instances).
- The comment on `AddReadHook` says that any hook sends every access of its kind
  past the TLB; the code caches pages no hook can watch. The model follows the
  code, and hooks still fire exactly.
- The comment on the exclusive monitor mentions the value; the code compares
  address and size only, and so does the model.
- `Map`, `Munmap` and `Protect` of the allocator round the size up on its own, not
  the end of the range, and do so in 64 bits. A request that starts inside a page
  can miss the last page it meets, one of more than 2^64 - 4096 bytes does nothing,
  and one that reaches the top of the address space wraps. `SpaceLaws.DoneIsAsked`
  says for which requests the allocator works on every page they meet;
  `SpaceLaws.MapExactIff`, `SpaceLaws.UnmapExactIff` and `SpaceLaws.ProtectWhole`
  give the exact condition for each operation, over the pages that
  [addr, addr + size) meets as natural numbers; `SpaceLaws.MapMisses`,
  `SpaceLaws.UnmapMisses`, `SpaceLaws.UnmapAll` and `SpaceLaws.ProtectMissesPage`
  are instances.
- A pair load that faults in its second half has already assigned its first
  register (`HotPaths.Ldp64IsLoadPair`).
- `Protect` changes only regions that lie wholly inside its rounded range
  (`SpaceLaws.ProtectExact`, `SpaceLaws.ProtectMisses`).
- `Munmap` of a range that wraps releases nothing, or leaves a region as two that
  overlap (`SpaceLaws.UnmapOverlaps`); `SpaceLaws.UnmapKeepsIff` gives the exact
  condition, `SpaceLaws.MapKeepsIff` that of `Map`.
- An anonymous mapping whose size rounds to zero hands its address out again
  (`SpaceLaws.EmptySizes`, `SpaceLaws.EmptyMmapRepeats`).
- Words the architecture calls constrained unpredictable, such as a load whose base
  is also its target with write-back, do what the code does: the base wins.

## Choices of form

- Arrays the original embeds in a struct (TLBs, decoded slots, register file) are
  sequence fields; arrays it shares by pointer in the page table are real arrays.
  Pages, page buffers and code pages are named by handles into maps of the
  `Memory` object; two names for one page are two equal handles.
- Go panics and recovered faults are results. The lookup of the current page from
  a TLB hit goes through the buffer the entry names, as in the original.
- The decoder is a function of (word, pc) in the memory and run-loop part. What the
  instructions outside the modelled handlers do is a parameter (`Meaning`), a
  script like the others.
- Fibers are the entries of the scheduler's table, updated in place by index.
  What a guest does in a slice, including the stack addresses its new threads get,
  is any function of the slice number and the registers.
- In `Bitfield.dfy` a word is its 64 bits; elsewhere words are integers below
  2^64 with wrap-around written out, and `WordBits.dfy` converts.

## Model

| member | source | states |
|---|---|---|
| `PageTables.PageTable.SetPage` | internal/arm64/mem.go:151-168 | a page stored in the three-level table is what a lookup finds from then on, every other page number finding what it did; missing levels are allocated, none shared |
| `PageTables.PageTable.Lookup` | internal/arm64/mem.go:136-149 | the walk returns the page of that number, or none when a level is missing or the number is beyond the table |
| `GuestMemory.Memory.FlushTLB` | internal/arm64/mem.go:124-134 | all four caches are emptied, which makes the cache invariant hold whatever they contained |
| `GuestMemory.Memory.DropPageCode` | internal/arm64/mem.go:265-277 | after a page loses its decoded code no cache names that code; the invariant is kept |
| `GuestMemory.Memory.Writable` | internal/arm64/mem.go:251-263 | a page about to be written has its own array, never the shared zero page, and no decoded code; its meaning is unchanged |
| `GuestMemory.Memory.GuestPage` | internal/arm64/mem.go:376-407 | the page of an access, or exactly the fault the flat map prescribes |
| `GuestMemory.HooksCoverPage` | internal/arm64/mem.go:413-422 | true exactly when some hook watches some address of the page |
| `GuestMemory.Memory.CallHooks` | internal/arm64/mem.go:424-431 | the calls appended to the log are those of the hooks that watch the start address, in order |
| `GuestMemory.Memory.ReadSlow` | internal/arm64/mem.go:433-471 | a load of any size and alignment, inside a page or across two, is the flat load: value, fault and hook calls; the invariant is kept |
| `GuestMemory.Memory.ReadN` | internal/arm64/mem.go:602-613 | so is a sized read that tries the read TLB first |
| `GuestMemory.Memory.WriteSlow` | internal/arm64/mem.go:480-511 | a store, inside a page or across two, is the flat store: bytes, fault, hook calls, every other byte kept; nothing is written when either page faults |
| `GuestMemory.Memory.WriteHot` | internal/arm64/mem.go:580-600 | so is a store that tries the write TLB first |
| `GuestMemory.Memory.WriteN` | internal/arm64/mem.go:615-626 | and a sized write, of the value's low bytes |
| `GuestMemory.Memory.ReadHitLoads` | internal/arm64/mem.go:562-567 | a read-TLB hit yields the bytes the flat map has, without a fault and without a hook to call |
| `GuestMemory.Memory.WriteHitStores` | internal/arm64/mem.go:593-600 | storing straight into the buffer a write-TLB hit names is the flat store |
| `GuestMemory.Memory.CheckWrite` | internal/arm64/mem.go:628-635 | the first and the last page of a multi-part store are checked, which is the flat check |
| `GuestMemory.Memory.Map` | internal/arm64/mem.go:186-203 | maps exactly the range, zero-filled, or refuses with the source's three reasons; the invariant is kept |
| `GuestMemory.Memory.Unmap` | internal/arm64/mem.go:219-230 | unmaps exactly the range and leaves no cache naming its pages |
| `GuestMemory.Memory.Protect` | internal/arm64/mem.go:232-246 | changes exactly the range's protection; no cache outlives a permission |
| `GuestMemory.Memory.IsMapped` | internal/arm64/mem.go:248 | tells whether the page is in the flat map |
| `FlatMemory.RangeOps` | internal/arm64/mem.go:186-246 | mapping, unmapping and protecting act on exactly the pages of their range |
| `GuestMemory.Memory.HostRead` | internal/arm64/mem.go:304-322 | copies the bytes of the range chunk by chunk, or fails when a page of it is unmapped |
| `GuestMemory.Memory.HostWrite` | internal/arm64/mem.go:324-355 | stores the bytes over pages of any protection, dropping decoded code on the way, or changes nothing when a page is unmapped |
| `GuestMemory.Memory.DropCode` | internal/arm64/mem.go:279-302 | no page has decoded code left; memory means what it did |
| `GuestMemory.Memory.AddReadHook` | internal/arm64/mem.go:656-661 | the hook is registered last and every cache is emptied |
| `GuestMemory.Memory.AddWriteHook` | internal/arm64/mem.go:663-668 | as for read hooks |
| `GuestMemory.Memory.RemoveReadHook` | internal/arm64/mem.go:670-678 | that hook and no other is gone; the caches stay valid without a flush |
| `GuestMemory.Memory.RemoveWriteHook` | internal/arm64/mem.go:670-678 | as for read hooks |
| `HookLaws.EachOnce` | internal/arm64/mem.go:424-431 | one access calls a hook once if the hook watches its start address, and not at all otherwise |
| `HookLaws.HooksFireExactly` | internal/arm64/mem.go:653-678 | over any history of registrations, removals, loads and stores, from any memory, the log gains exactly one call of a hook for each access of its kind, faulting ones aside, that it watched while registered |
| `HookLaws.Play` | internal/arm64/mem.go:433-511 | a memory with its caches that goes through such a history ends as the history says, log included |
| `GuestMemory.Memory.Fetch` | internal/arm64/cpu.go:332-349 | after a fetch the fetch cache names the executable page's current code, or the flat map's fetch fault is returned |
| `GuestMemory.Memory.CurrentInst` | internal/arm64/cpu.go:287-311 | the decoded instruction at pc, cached or decoded now, is the decoding of the four bytes the flat map holds at pc at that moment |
| `GuestMemory.Memory.Raw` | internal/arm64/cpu.go:373-378 | the encoding at pc, zero on a page never written |
| `RunLoop.Run` | internal/arm64/cpu.go:238-318 | the batched, cached run loop, which executes every instruction through its handler, ends in the state, with the stop, of the plain loop that fetches, decodes and executes from flat memory; it makes no progress for ever if and only if the plain loop, short of the limit, gets to the one count from which a batch would wrap the counter |
| `RunLoop.RunBatch` | internal/arm64/cpu.go:282-311 | one batch of at most 512 instructions advances the plain loop by what it retires |
| `RunLoop.OneInst` | internal/arm64/cpu.go:287-311 | one iteration, with its cached fetch, is one step of the plain loop |
| `RunLoop.CallCodeHooks` | internal/arm64/cpu.go:322-330 | every code hook that watches pc is called once, and the fetch cache is forgotten |
| `Cpu.CPU.Execute` | internal/arm64/cpu.go:282-311 | a script run against the caches, its stores trying the write TLB, has its effect on flat memory |
| `Dispatch.ExecuteInst` | internal/arm64/cpu.go:306-310 | any decoded instruction, executed by the handler the interpreter has for it, does what its meaning says |
| `RunLoop.LeftIs` | internal/arm64/cpu.go:248-258 | a run with a count may retire that many instructions, or none at all when the 64-bit counter would wrap |
| `RunLoop.CountWraps` | internal/arm64/cpu.go:248-258 | an instance: from one instruction retired, a count of 2^64 - 1 retires nothing |
| `RunLoop.WrapsAtOnce` | internal/arm64/cpu.go:268-282 | an instance: a run without a count that starts 512 instructions below the wrap makes no progress |
| `Machine.PlainFinishes` | internal/arm64/cpu.go:238-318 | a run that ends without an error has retired exactly min(count, steps to the stop address) instructions |
| `Machine.RetiringFinishes` | internal/arm64/cpu.go:238-318 | and conversely retiring that many is what a run does |
| `Machine.StepCounts` | internal/arm64/cpu.go:299-311 | each step counts one instruction exactly when it succeeds |
| `LoadStoreOps.LoadAt` | internal/arm64/ldst.go:300-326 | the generic load: value, extension, write-back after the access, fault |
| `LoadStoreOps.StoreAt` | internal/arm64/ldst.go:328-343 | the generic store |
| `LoadStoreOps.HotLoadAt` | internal/arm64/ldst.go:811-839 | a specialised load with its inline TLB check equals its script on flat memory |
| `LoadStoreOps.HotStoreAt` | internal/arm64/ldst.go:841-870 | a specialised store likewise; the hook sees the register untruncated |
| `LoadStoreOps.OpLdp64Off` | internal/arm64/ldst.go:994-1006 | the 64-bit pair load: sixteen bytes against one TLB entry, or the checked loads |
| `LoadStoreOps.OpStp64Off` | internal/arm64/ldst.go:1008-1020 | the 64-bit pair store likewise |
| `LoadStoreOps.OpDcZva` | internal/arm64/decode.go:602-609 | the check and eight stores of DC ZVA |
| `StructureOps.OpSimdStoreMulti` | internal/arm64/ldst.go:774-798 | both lane loops of a structure store, with their moving address, store the elements the shape prescribes, in order |
| `StructureOps.OpSimdLoadMulti` | internal/arm64/ldst.go:745-772 | both lane loops of a structure load gather the elements into the lanes the shape prescribes |
| `HotPaths.HotLoadIsLoad` | internal/arm64/ldst.go:811-839 | a specialised load does what the generic zero-extending load does |
| `HotPaths.HotStoreIsStore` | internal/arm64/ldst.go:841-870 | a specialised store ends in the same registers, stop and bytes as the generic one; hooks are told the same exactly when the register fits, the store faults or no hook watches |
| `HotPaths.HotStoreHookDiffers` | internal/arm64/ldst.go:851-870 | a byte store of 0x100 for which the two tell a hook different values |
| `HotPaths.Stp64IsStorePair` | internal/arm64/ldst.go:1008-1020 | the specialised pair store is the generic one |
| `HotPaths.Ldp64IsLoadPair` | internal/arm64/ldst.go:994-1006 | so is the pair load when nothing faults; on a fault only the first register differs |
| `StoreLaws.AccessFaultIff` | internal/arm64/mem.go:433-511 | an access faults exactly when some byte of it is unmapped or lacks the permission |
| `StoreLaws.WriteCheckIff` | internal/arm64/mem.go:628-635 | the two-page check faults exactly when some byte of the whole store does |
| `StoreLaws.CoveredAtomic` | internal/arm64/mem.go:628-635 | once the check has passed no later store of the instruction can fault |
| `StoreLaws.AllOrNothing` | internal/arm64/ldst.go:356-364 | a store of any handler that faults leaves memory, hook calls and registers as they were, the monitor aside; a load changes no byte |
| `StoreLaws.StoreThenLoad` | internal/arm64/mem.go:593-626 | a load of what was stored returns its low bytes; every other byte keeps its value |
| `StoreLaws.StoreThenStep` | internal/arm64/cpu.go:287-311 | a word stored where pc points is the instruction executed next, with no flush |
| `StoreLaws.MemoryBounded` | internal/arm64/mem.go:136-184 | the memory of the interpreter maps only page numbers the table can hold, as the laws of faults assume |
| `RoundTrips.PairRoundTrip` | internal/arm64/ldst.go:400-422 | a pair load after the pair store of the same size and address, in any two addressing modes, gives back the low bytes of both registers |
| `RoundTrips.VectorRoundTrip` | internal/arm64/ldst.go:345-364 | a 128-bit register stored and loaded at the same address, with or without write-back, comes back whole |
| `RoundTrips.StoreExclusiveDecides` | internal/arm64/ldst.go:534-554 | a store-exclusive stores and reports 0 exactly against a monitor set for its address and size; otherwise it touches no memory and reports 1; the monitor is clear afterwards, fault or not |
| `RoundTrips.LoadExclusiveArms` | internal/arm64/ldst.go:515-521 | a load-exclusive arms the monitor for exactly the store-exclusive of its address and size |
| `RoundTrips.ExclusiveOnlyOnce` | internal/arm64/ldst.go:539-554 | the second of two store-exclusives with no load-exclusive between them fails |
| `StructureLaws.WholeRun` | internal/arm64/ldst.go:774-798 | a checked run of stores that does not fault writes one byte string at the base and nothing else |
| `StructureLaws.GatherElements` | internal/arm64/ldst.go:745-798 | gathering the elements a store writes rebuilds each register, the upper half cleared in the 64-bit form |
| `StructureLaws.StructureRoundTrip` | internal/arm64/ldst.go:745-798 | a structure load after the structure store of the same shape at the same base restores every register transferred |
| `StructureLaws.DcZvaZeroes` | internal/arm64/decode.go:602-609 | DC ZVA zeroes its 64-byte block and nothing else, exactly when all 64 bytes are writable |
| `Decode.DecodedSlots` | internal/arm64/ldst.go:22-44 | every accepted load or store word is a modelled handler with a legal shape, never writes the zero register, and writes the stack pointer if and only if it is the base of a form that writes its base back |
| `Decode.HandlerWrites` | internal/arm64/ldst.go:284-454 | a handler changes only the register slots it is listed to write |
| `Decode.ZeroStaysZero` | internal/arm64/cpu.go:20-30 | executing any decoded load or store keeps the zero register's value, and the stack pointer unless the word writes it back |
| `Runs.DecodedWrites` | internal/arm64/cpu.go:20-30 | no accepted word, load, store, branch or data processing, writes the zero register's slot, and one writes the stack pointer's if and only if it names it as a destination or as a base it writes back |
| `Runs.StepLeaves` | internal/arm64/cpu.go:20-30 | one step of the interpreter leaves both as they were, the stack pointer unless the word at pc names it so, if the words none of these decoders accept (SIMD and floating point, moves of system registers, exceptions) do |
| `Runs.RunKeepsZero` | internal/arm64/cpu.go:20-30 | in every state a run reaches the zero register reads zero, whatever loads, stores, branches and data processing it executes, under the same condition |
| `Runs.RunKeepsSp` | internal/arm64/cpu.go:20-30 | a run in which no word writes the stack pointer by name ends with the stack pointer it began with, under the same condition |
| `RunLaws.RunByTheRule` | internal/arm64/cpu.go:238-318 | both hold of the interpreter's own run loop, batches, caches and hooks included, however the run ends |
| `RunLaws.OthersLeave` | internal/arm64/cpu.go:481-496 | the condition on the other words is met by handlers that write at most one register, never through number 31 |
| `Decode.DecodedAtomic` | internal/arm64/ldst.go:22-44 | every decoded store is all-or-nothing; every decoded load changes no byte |
| `Transfers.DecodedTransfers` | internal/arm64/ldst.go:76-280 | for every accepted integer load or store, single or pair, the generic handler does to the visible registers, memory and pc what the architecture reads off the word: registers, offset, extension, write-back after the access, and a fault that changes no register |
| `Transfers.AllocatedIff` | internal/arm64/ldst.go:76-280 | the decoder accepts exactly the integer loads and stores the architecture allocates |
| `Transfers.PickedTransfers` | internal/arm64/ldst.go:154-280 | and so does the handler the decoder picks, specialised or not, fault or no fault, in its stop, the bytes and the registers; only a specialised pair load that faults may have assigned its first register |
| `Decode.DecodedRefines` | internal/arm64/ldst.go:154-185 | every decoded word, specialised or not, does what its generic handler does |
| `DataTable.DecodedListed` | internal/arm64/decode.go:25-153 | the decoder of data processing accepts exactly the words the architecture's encoding tables of the base instruction set allocate, immediates, shifts and masks that do not exist left out, and gives each the operation the tables list |
| `DataTable.DecodedMeans` | internal/arm64/dpreg.go:10-189 | every word those tables allocate, decoded and executed, does to the visible registers, flags and pc what the architecture reads off the word alone: additions, logical operations with their mask immediates, moves, bitfields, EXTR, divisions, variable shifts, CRC32, bit and byte reversals, counts and multiplications at both sizes, register 31 being zero or the stack pointer by position |
| `DataRefine.DecodedDpRefines` | internal/arm64/dpreg.go:10-137 | resolving register 31 when decoding refines the architecture's rule for each operation the decoder picks |
| `DataRefine.LogicImmAgrees` | internal/arm64/decode.go:55-77 | AND, ORR, EOR and ANDS with the mask whose bits the fields of the word describe, where 31 may be the stack pointer |
| `DataRefine.MoveWideRefines` | internal/arm64/decode.go:79-108 | MOVN, MOVZ and MOVK; the last keeps the other 48 or 16 bits |
| `DataRefine.BitfieldAgrees` | internal/arm64/decode.go:110-134 | bitfield moves on the register file: the masks and rotations decoded give the field in place, for every immr and imms |
| `DataRefine.ExtractAgrees` | internal/arm64/decode.go:136-151 | EXTR takes its bits from the pair of registers |
| `DataRefine.LogicRegAgrees` | internal/arm64/dpreg.go:17-39 | logical operations with a shifted, rotated or complemented register, MOV among them |
| `DataLaws.InsertedMeans` | internal/arm64/decode.go:290-302 | merging through two masks is inserting the field between the bits kept |
| `DataLaws.ExtractMeans` | internal/arm64/decode.go:304-312 | shifting one register down and the other up gives 32 or 64 bits of their concatenation |
| `DataLaws.BytesMean` | internal/arm64/dpreg.go:580-601 | reversing whole words and then shifting or rotating reverses the bytes of each unit |
| `DataLaws.ZerosMean` | internal/arm64/dpreg.go:603-604 | the number of leading zeros is counted from the top bit down |
| `DataLaws.SignsMean` | internal/arm64/dpreg.go:606-617 | counting the leading zeros of a number against itself shifted counts its leading sign bits |
| `DataLaws.HighMeans` | internal/arm64/dpreg.go:649-661 | the high half of a product is the exact product divided, signed or unsigned |
| `Branches.BranchListed` | internal/arm64/decode.go:314-350 | the decoder finds a branch exactly where the encoding tables have one, and the same |
| `Branches.BranchRefines` | internal/arm64/decode.go:352-435 | every branch of the tables is taken, links and falls through as the architecture reads off the word |
| `Branches.CompareAndBranch` | internal/arm64/decode.go:355-361 | a conditional branch after a subtraction that sets flags is taken exactly when the comparison it names holds of the numbers subtracted |
| `DataProc.AdrRefines` | internal/arm64/decode.go:29-37 | ADR and ADRP, computed when decoding |
| `DataProc.ImmediateRefines` | internal/arm64/decode.go:39-53 | additions and subtractions of an immediate, where 31 may be the stack pointer |
| `DataProc.ShiftedRefines` | internal/arm64/dpreg.go:39-49 | additions and subtractions of a shifted register |
| `DataProc.ExtendedRefines` | internal/arm64/dpreg.go:50-64 | additions and subtractions of an extended register, where 31 may be the stack pointer |
| `DataProc.WithCarryRefines` | internal/arm64/dpreg.go:68-74 | ADC, ADCS, SBC and SBCS |
| `DataProc.CompareRefines` | internal/arm64/dpreg.go:75-87 | CCMN and CCMP with a register or an immediate |
| `DataProc.ChooseRefines` | internal/arm64/dpreg.go:88-96 | CSEL, CSINC, CSINV and CSNEG |
| `DataProc.PlainSum` | internal/arm64/decode.go:211-214 | subtracting with wrap-around is adding the complement and one |
| `Lanes.GetSetLane` | internal/arm64/vec.go:8-19 | setting a lane changes that lane to the low bytes put and no other lane |
| `Lanes.SameLanes` | internal/arm64/vec.go:8-19 | a register is determined by its lanes |
| `Permute.Permuted` | internal/arm64/vec.go:1382-1412 | the three permute loops compute UZP, TRN and ZIP lane by lane |
| `Permute.UnzipZip` | internal/arm64/vec.go:1382-1412 | UZP1 and UZP2 of ZIP1 and ZIP2 give both sources back, at every lane width and in both forms |
| `Permute.TransposeTwice` | internal/arm64/vec.go:1395-1399 | TRN1 and TRN2 undo themselves |
| `PermuteWords.OpSimdPermute` | internal/arm64/vec.go:1382-1412 | the handler sets the register the word names to the permuted lanes and no other |
| `PermuteWords.FourWords` | internal/arm64/vec.go:1367-1412 | decoded and executed one after another, ZIP1, ZIP2, UZP1 and UZP2, or TRN1 and TRN2 twice, bring two registers back through the register file |
| `Half.FromHalf` | internal/arm64/fp.go:72-98 | the widening with its normalising loop computes the function F16 |
| `Half.CorrectlyRounded` | internal/arm64/fp.go:100-148 | every number that is not a NaN becomes the nearest binary16 number of the same sign, ties to even: subnormals, underflow, overflow and both carries |
| `Half.Monotone` | internal/arm64/fp.go:100-148 | narrowing never reverses the order of two numbers |
| `Half.WideningExact` | internal/arm64/fp.go:72-98 | widening keeps sign and value |
| `Half.RoundTrip` | internal/arm64/fp.go:72-148 | narrowing a widened binary16 number gives it back, a NaN with its quiet bit set |
| `Half.NaNs` | internal/arm64/fp.go:105-110 | a NaN keeps sign and top payload bits and becomes quiet; nothing else becomes a NaN |
| `Flags.AddExact` | internal/arm64/cpu.go:449-465 | result and carry are the exact sum; N, Z and V describe it as a two's complement number |
| `Flags.SubExact` | internal/arm64/decode.go:224-238 | adding the complement with a carry subtracts: C is not-borrow, N != V the signed less-than |
| `Flags.CondTab` | internal/arm64/cpu.go:420-436 | the nested loops build the table of condition codes |
| `Flags.LookUp` | internal/arm64/cpu.go:438 | a lookup finds what the code says of the flags |
| `Flags.CondAfterSubs` | internal/arm64/cpu.go:419-438 | after SUBS each of the sixteen codes holds exactly when its signed or unsigned comparison does, at both sizes |
| `Flags.CcmpChains` | internal/arm64/dpreg.go:378-399 | a comparison followed by a conditional comparison decides the second comparison or the fallback flags |
| `Flags.AddChainExact` | internal/arm64/dpreg.go:353-357 | ADDS then ADCS over any number of words, of 32 or of 64 bits, gives the whole sum with its carry in C |
| `Flags.SubChainExact` | internal/arm64/dpreg.go:359-363 | SUBS then SBCS gives the whole difference with C as not-borrow |
| `Flags.ChainCompares` | internal/arm64/dpreg.go:359-363 | the last flags of such a chain compare the whole numbers: C unsigned, N != V signed |
| `Bitfield.Replicate` | internal/arm64/decode.go:198-209 | the replication loop copies the element over the low 32 or 64 bits |
| `Bitfield.DecodeBitMasks` | internal/arm64/decode.go:163-196 | the mask decoder computes the function Masks |
| `Bitfield.MasksMean` | internal/arm64/decode.go:163-196 | each element has its s + 1 low bits rotated right by r, tmask its d + 1 low bits; the reserved encodings are exactly those the architecture reserves |
| `Bitfield.MoveMasks` | internal/arm64/decode.go:110-134 | the masks a bitfield move is decoded with |
| `Bitfield.UbfmValue` | internal/arm64/decode.go:262-272 | UBFM computes the field, zero-extended or shifted into place, for every immr and imms, at both sizes |
| `Bitfield.SbfmValue` | internal/arm64/decode.go:274-288 | SBFM computes the field sign-extended from its own top bit, shifted into place |
| `Bitfield.BfmValue` | internal/arm64/decode.go:290-302 | BFM inserts the field between the destination's other bits |
| `Sleb.Reader.Next` | internal/loader/packed.go:45-68 | the decoding loop computes one number of the stream, moves past it and never past the end |
| `Sleb.RoundTrip` | internal/loader/packed.go:45-68 | every 64-bit number comes back from its encoding, wherever it stands in a stream |
| `Packed.Decode` | internal/loader/packed.go:76-169 | the group and entry loops compute the function DecodeAps2 on every input, malformed ones included |
| `Packed.CountDeclared` | internal/loader/packed.go:86-96 | on any bytes a successful decoding has exactly the declared count |
| `PackedLaws.Aps2RoundTrip` | internal/loader/packed_test.go:13-30 | decoding inverts encoding for every relocation list, every cut into groups with legal flags and every first offset, whatever bytes follow |
| `PackedLaws.Ungrouped` | internal/loader/packed.go:76-169 | every non-empty list has a legal encoding |
| `Relr.DecodeRelr` | internal/loader/packed.go:175-203 | the word and bit loops compute the function Relocs; trailing bytes are ignored |
| `Relr.RelrCount` | internal/loader/packed.go:175-203 | for any words there is one relocation for each address word and each set bitmap bit |
| `Relr.RelrRoundTrip` | internal/loader/packed.go:171-203 | decoding inverts the generic ABI's encoding of every strictly increasing list of even addresses into words |
| `Relr.RelrBytesRoundTrip` | internal/loader/packed.go:171-203 | and into the bytes the decoder reads, ignoring an incomplete last word |
| `Relr.DecodeRel` | internal/loader/packed.go:205-224 | the loop over 16-byte records computes the function Records |
| `Relr.RelRoundTrip` | internal/loader/packed.go:205-224 | decoding inverts the encoding of lists whose addends are the implicit ones and ignores a partial last record |
| `Scheduler.SaveRestore` | internal/arm64/cpu.go:113-128 | a restored context shows a program the registers that were saved |
| `Scheduler.Emulator.NewFiber` | emulator/scheduler.go:73-85 | a thread is added, unstarted and runnable, with its routine, argument, stack and id; no other changes |
| `Scheduler.Emulator.WakeFutex` | emulator/scheduler.go:242-251 | exactly the fibers waiting on the address become runnable, and their number is returned |
| `Scheduler.Emulator.ParkFiber` | emulator/scheduler.go:151-157 | an exhausted fiber is parked and its context freed |
| `Scheduler.Emulator.Resume` | emulator/scheduler.go:174-207 | a slice starts at the thread's entry, or with exactly the registers the fiber last stopped with; its context is freed |
| `Scheduler.Emulator.RunFiberSlice` | emulator/scheduler.go:174-239 | a slice keeps the whole invariant and, unless the guest exits, uses up budget |
| `Scheduler.Emulator.Round` | emulator/scheduler.go:119-137 | a round in which nothing ran leaves no fiber runnable or sleeping |
| `Scheduler.Emulator.RunThreads` | emulator/scheduler.go:104-140 | at most 80 slices a fiber and one round more than slices run; below the round cap no fiber is left runnable or sleeping; the main thread's registers come back, on errors too; done fibers stay done |
| `Scheduler.Emulator.SlicesBounded` | emulator/scheduler.go:22-27 | no fiber ever runs more than 80 slices |
| `Space.Allocator.Map` | internal/memory/memory.go:45-58 | a fixed mapping, or a refusal that changes nothing |
| `Space.Allocator.Mmap` | internal/memory/memory.go:62-68 | returns the cursor and moves it past the mapping |
| `Space.Allocator.Munmap` | internal/memory/memory.go:71-90 | the splitting loop computes the function Unmapped |
| `Space.Allocator.Protect` | internal/memory/memory.go:93-108 | the in-place loop computes the function Protected; it reports failure exactly when no region lies wholly inside the range |
| `Space.Allocator.Find` | internal/memory/memory.go:111-117 | on any table the binary search returns only a region around the address; on a sorted one of disjoint regions it returns one exactly when there is one |
| `Space.Allocator.SetLayout` | internal/memory/memory.go:128-132 | the table becomes the same regions, as many times each, in order of address |
| `Space.SortSorts` | internal/memory/memory.go:134-141 | sorting gives the same regions in order of address, whatever order they came in |
| `SpaceLaws.DoneIsAsked` | internal/memory/memory.go:41-48 | the allocator works on no page that [addr, addr + size), counted in natural numbers, does not meet; and on all that it meets if and only if the partial pages at its two ends fit in one and the last page of the address space is not needed |
| `SpaceLaws.MapExactIff` | internal/memory/memory.go:45-58 | a fixed mapping that is not refused maps exactly the pages its request meets, none of them mapped before, if and only if the allocator works on all of them or, when the range wraps, nothing is mapped from its start on |
| `SpaceLaws.MapMisses` | internal/memory/memory.go:45-58 | an instance: mapping 0x1000 bytes at 0x1800 leaves the second of their two pages unmapped |
| `SpaceLaws.MapRefused` | internal/memory/memory.go:45-58 | a fixed mapping is refused if and only if its size rounds up to nothing, or a page it works on is mapped, or it wraps around a gap inside a region |
| `SpaceLaws.RefusedMeets` | internal/memory/memory.go:45-58 | one refused for any other reason than its size meets a mapped page |
| `SpaceLaws.MapKeepsIff` | internal/memory/memory.go:45-58 | one that is not refused leaves sorted, disjoint regions if and only if its range does not wrap |
| `SpaceLaws.MmapExact` | internal/memory/memory.go:62-68 | an anonymous mapping starts at the cursor and changes nothing below it |
| `SpaceLaws.UnmapExactIff` | internal/memory/memory.go:70-90 | unmapping releases exactly the pages that [addr, addr + size) meets, through splits, if and only if nothing is mapped on those of them the allocator does not work on |
| `SpaceLaws.UnmapMisses` | internal/memory/memory.go:70-90 | an instance: unmapping 0x1000 bytes at 0x1800 leaves the second of their two pages mapped |
| `SpaceLaws.UnmapAll` | internal/memory/memory.go:70-90 | an instance: unmapping the whole address space, 2^64 - 1 bytes from zero, releases nothing from any layout |
| `SpaceLaws.UnmapKeepsIff` | internal/memory/memory.go:71-90 | unmapping leaves sorted, disjoint regions if and only if its range does not wrap, or no region reaches from below its wrapped end to above its start |
| `SpaceLaws.UnmapOverlaps` | internal/memory/memory.go:71-90 | a range of positive size whose unmapping turns one region into two that overlap |
| `SpaceLaws.ProtectExact` | internal/memory/memory.go:93-108 | protecting changes exactly the regions that lie wholly inside the range, and none if it wraps |
| `SpaceLaws.ProtectWhole` | internal/memory/memory.go:92-108 | exactly the mapped pages that [addr, addr + size) meets get the protection if and only if every region that has one of them, and does not lie inside the range the allocator works on, had it already |
| `SpaceLaws.ProtectMissesPage` | internal/memory/memory.go:92-108 | an instance: protecting 0x1000 bytes at 0x1800 leaves a region that is the second of their two pages as it was |
| `SpaceLaws.ProtectMisses` | internal/memory/memory.go:93-108 | one page inside a larger region is not reprotected |
| `SpaceLaws.SoundIff` | internal/memory/memory.go:43-141 | an operation on a sound allocator leaves it sound, regions sorted, aligned, disjoint and below the cursor, if and only if it is legal |
| `SpaceLaws.Runs` | internal/memory/memory.go:43-141 | every run of legal operations keeps the allocator sound and never hands an anonymous address out twice |
| `SpaceLaws.NewRuns` | internal/memory/memory.go:33-141 | in particular every such run of a new allocator, whose addresses grow from the mapping base |
| `SpaceLaws.EmptySizes` | internal/memory/memory.go:41 | the sizes that round up to nothing |
| `SpaceLaws.EmptyMmapRepeats` | internal/memory/memory.go:62-68 | in every state an anonymous mapping leaves the cursor where it was if and only if its size is one of these, and then the next one gets the same address |

## Left out

- Bodies of hooks: a hook is a range and an entry in a log, so hooks that remap or rewrite memory in the middle of an access, interrupt hooks, invalid-access hooks with their retry, and requests to stop a run are not modelled.
- The program counter stored in a fault for reports.
- RunLoop.Run: where the original loops for ever the method returns `Spinning`; a count of zero runs to the largest counter value.
- Vector transfers, literals and exclusives read off the word: `Decode` and the handler laws cover them, `Transfers` only the integer forms.
- Conversions as machine steps: `Half` models their results on values; the permutes are decoded in `PermuteWords`, outside the decoder of `Runs`.
- CRC32 comes from a library in the original; here it is the bit-serial division that the instruction is defined by.
- Concurrent use of one CPU: the original allows only the stop flag, which is left out.
- The words that later extensions allocate among data processing (memory tagging, pointer authentication): the original does not decode them, nor does the model.
- FEAT_LSE atomics, disabled in the source, system registers, and the exceptions SVC, BRK and HLT: words of these kinds belong to the decoder and handlers that are parameters.
- Floating-point arithmetic other than the binary16 conversions, and the bodies of most vector operations.
- Where implicit addends come from: they are a function of the address.
- Failing context saves and restores in the scheduler: the interpreter's cannot fail; with them a fiber may be parked early.
- Scheduler.Emulator.WakeFutex: a wake between a guest's check and its wait is lost, as in the source; the futex word is not modelled.
- Sorting in the allocator is insertion by address; for regions that do not overlap any sort gives the same order.
- SpaceLaws.Runs: speaks of legal operations; `SpaceLaws.SoundIff` shows that after any other the allocator is not sound.
- The foreign engines, system calls, JNI, file system, debugger and snapshots.
