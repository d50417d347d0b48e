/** What every modelled handler does. */
module Handlers {
  import opened Instructions
  import opened Machine
  import opened LoadStore
  import opened Arithmetic
  import opened Jumps

  /** The meaning of every handler, given one for the handlers not listed here. */
  function Handle(i: Inst, s: Regs, other: Meaning): Script {
    match i.fn
    case LoadOff => LoadScript(i, s, AddrOff(i, s), false)
    case LoadWb => LoadScript(i, s, AddrFor(i, s), true)
    case LoadReg => LoadScript(i, s, AddrReg(i, s), false)
    case StoreOff => StoreScript(i, s, AddrOff(i, s), false)
    case StoreWb => StoreScript(i, s, AddrFor(i, s), true)
    case StoreReg => StoreScript(i, s, AddrReg(i, s), false)
    case VLoadOff => VLoadScript(i, s, AddrOff(i, s), false)
    case VLoadWb => VLoadScript(i, s, AddrFor(i, s), true)
    case VLoadReg => VLoadScript(i, s, AddrReg(i, s), false)
    case VStoreOff => VStoreScript(i, s, AddrOff(i, s), false)
    case VStoreWb => VStoreScript(i, s, AddrFor(i, s), true)
    case VStoreReg => VStoreScript(i, s, AddrReg(i, s), false)
    case LoadPair => LoadPairScript(i, s)
    case StorePair => StorePairScript(i, s)
    case VLoadPair => VLoadPairScript(i, s)
    case VStorePair => VStorePairScript(i, s)
    case Ldxr => LdxrScript(i, s)
    case Ldxp => LdxpScript(i, s)
    case Stxr => StxrScript(i, s)
    case Stxp => StxpScript(i, s)
    case DcZva => DcZvaScript(i, s)
    case SimdLoadMulti => if GoodSimd(i) then SimdLoadScript(i, s) else other(i, s)
    case SimdStoreMulti => if GoodSimd(i) then SimdStoreScript(i, s) else other(i, s)
    case Ldr64Off => HotLoad(i, s, AddrOff(i, s), 8)
    case Ldr32Off => HotLoad(i, s, AddrOff(i, s), 4)
    case Ldrb64Off => HotLoad(i, s, AddrOff(i, s), 1)
    case Str64Off => HotStore(i, s, AddrOff(i, s), 8)
    case Str32Off => HotStore(i, s, AddrOff(i, s), 4)
    case Strb64Off => HotStore(i, s, AddrOff(i, s), 1)
    case Ldr64Reg => HotLoad(i, s, AddrReg(i, s), 8)
    case Ldr32Reg => HotLoad(i, s, AddrReg(i, s), 4)
    case Ldrb64Reg => HotLoad(i, s, AddrReg(i, s), 1)
    case Str64Reg => HotStore(i, s, AddrReg(i, s), 8)
    case Str32Reg => HotStore(i, s, AddrReg(i, s), 4)
    case Strb64Reg => HotStore(i, s, AddrReg(i, s), 1)
    case Ldp64Off => Ldp64Script(i, s)
    case Stp64Off => Stp64Script(i, s)
    case Arith(_, _, _, _) | Data(_, _) => Script([], _ => Next(Exec(i, s)), _ => s)
    case Jump(_) => Script([], _ => Next(ExecJump(i, s)), _ => s)
    case Clrex => Script([], _ => Next(Advance(s.(exclValid := false))), _ => s)
    case Nop => Script([], _ => Next(Advance(s)), _ => s)
    case Other(_) => other(i, s)
  }

  /** The handlers as the meaning of decoded instructions. */
  function Handling(other: Meaning): Meaning {
    (i, s) => Handle(i, s, other)
  }

  ghost predicate Means(meaning: Meaning, other: Meaning) {
    forall i, s {:trigger Handle(i, s, other)} :: meaning(i, s) == Handle(i, s, other)
  }
}
