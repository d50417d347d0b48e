/** The permutes as decoded words on the vector registers. */
module PermuteWords {
  import opened Words
  import opened Lanes
  import opened Machine
  import opened LoadStore
  import opened Decode
  import opened Permute

  const UZP := 1
  const TRN := 2
  const ZIP := 3

  /** A decoded permute: the registers, the bytes of a lane, the lanes, and the three bits that say which it is. */
  datatype PermuteInst = PermuteInst(rd: nat, rn: nat, rm: nat, e: Size, lanes: nat, opcode: nat)

  function DecodePermute(raw: Raw): Option<PermuteInst> {
    var size, opcode, q := raw / 0x40_0000 % 4, raw / 0x1000 % 8, raw / 0x4000_0000 % 2;
    if (size == 3 && q == 0) || opcode % 4 == 0 then None
    else Some(PermuteInst(Rt(raw), Rn(raw), Rm(raw), Bytes(size), (if q == 1 then 16 else 8) / Bytes(size), opcode))
  }

  function Bytes(size: nat): Size {
    if size == 0 then 1 else if size == 1 then 2 else if size == 2 then 4 else 8
  }

  function PermutedVec(i: PermuteInst, n: Vec, m: Vec): Vec {
    var part := i.opcode / 4;
    if i.opcode % 4 == UZP then Uzps(Wide(i.e), n, m, i.lanes, part)
    else if i.opcode % 4 == TRN then Trns(Wide(i.e), n, m, i.lanes, part)
    else Zips(Wide(i.e), n, m, i.lanes, part)
  }

  function ExecPermute(i: PermuteInst, s: Regs): Regs {
    Advance(SetV(s, i.rd, PermutedVec(i, V(s, i.rn), V(s, i.rm))))
  }

  /** The handler: the loops on the registers the word names, and no other register changed. */
  method OpSimdPermute(i: PermuteInst, s: Regs) returns (t: Regs)
    requires i.opcode < 8 && i.opcode % 4 != 0
    ensures t == ExecPermute(i, s)
  {
    var out := Permuted(Wide(i.e), V(s, i.rn), V(s, i.rm), i.lanes, i.opcode / 4, i.opcode % 4);
    t := Advance(SetV(s, i.rd, out));
  }

  predicate Named(i: PermuteInst) {
    i.rd < 32 && i.rn < 32 && i.rm < 32 && Form(i.e, i.lanes)
  }

  /** Every accepted word names three registers and an even number of lanes that fill the register or its low half. */
  lemma DecodedNamed(raw: Raw)
    requires DecodePermute(raw).Some?
    ensures Named(DecodePermute(raw).value)
  {
    FormOf(raw / 0x40_0000 % 4, raw / 0x4000_0000 % 2);
  }

  lemma FormOf(size: nat, q: nat)
    requires size < 4 && q < 2 && !(size == 3 && q == 0)
    ensures Form(Bytes(size), (if q == 1 then 16 else 8) / Bytes(size))
  {
  }

  /** Two permutes of the same two registers and lanes, the first and the second form of an operation, into two other
      registers. */
  predicate BothForms(i: PermuteInst, j: PermuteInst, op: nat) {
    i.opcode == op && j.opcode == op + 4 && j == i.(rd := j.rd, opcode := j.opcode)
    && i.rd != j.rd && i.rd != i.rn && i.rd != i.rm
  }

  function Both(i: PermuteInst, j: PermuteInst, s: Regs): Regs {
    ExecPermute(j, ExecPermute(i, s))
  }

  lemma Sets(i: PermuteInst, s: Regs, r: nat)
    requires Named(i) && r < 32
    ensures V(ExecPermute(i, s), r) == if r == i.rd then PermutedVec(i, V(s, i.rn), V(s, i.rm)) else V(s, r)
  {
    SetsVec(s, i.rd, PermutedVec(i, V(s, i.rn), V(s, i.rm)), r);
  }

  lemma SetsVec(s: Regs, rd: nat, v: Vec, r: nat)
    requires rd < 32 && r < 32
    ensures V(Advance(SetV(s, rd, v)), r) == if r == rd then v else V(s, r)
  {
  }

  lemma BothPermuted(i: PermuteInst, j: PermuteInst, op: nat, s: Regs)
    requires BothForms(i, j, op) && Named(i) && Named(j)
    ensures V(Both(i, j, s), i.rd) == PermutedVec(i, V(s, i.rn), V(s, i.rm))
    ensures V(Both(i, j, s), j.rd) == PermutedVec(j, V(s, i.rn), V(s, i.rm))
  {
    Sets(i, s, i.rd);
    Sets(i, s, i.rn);
    Sets(i, s, i.rm);
    Sets(j, ExecPermute(i, s), i.rd);
    Sets(j, ExecPermute(i, s), j.rd);
  }

  /** The lanes of i and j are taken apart again by k and l. */
  predicate Inverse(i: PermuteInst, j: PermuteInst, k: PermuteInst, l: PermuteInst) {
    ((BothForms(i, j, ZIP) && BothForms(k, l, UZP)) || (BothForms(i, j, TRN) && BothForms(k, l, TRN)))
    && k.rn == i.rd && k.rm == j.rd && k.e == i.e && k.lanes == i.lanes
  }

  lemma VecsBack(i: PermuteInst, j: PermuteInst, k: PermuteInst, l: PermuteInst, n: Vec, m: Vec)
    requires Inverse(i, j, k, l) && Form(i.e, i.lanes)
    ensures var x, y := PermutedVec(i, n, m), PermutedVec(j, n, m);
      PermutedVec(k, x, y) == Kept(n, Offset(i.e, i.lanes)) && PermutedVec(l, x, y) == Kept(m, Offset(i.e, i.lanes))
  {
    if i.opcode == ZIP {
      ZipForms(i, j, n, m);
      UzpForms(k, l, PermutedVec(i, n, m), PermutedVec(j, n, m));
      UnzipZip(n, m, i.e, i.lanes);
    } else {
      TrnForms(i, j, n, m);
      TrnForms(k, l, PermutedVec(i, n, m), PermutedVec(j, n, m));
      TransposeTwice(n, m, i.e, i.lanes);
    }
  }

  lemma ZipForms(i: PermuteInst, j: PermuteInst, n: Vec, m: Vec)
    requires BothForms(i, j, ZIP)
    ensures PermutedVec(i, n, m) == Zips(Wide(i.e), n, m, i.lanes, 0)
    ensures PermutedVec(j, n, m) == Zips(Wide(i.e), n, m, i.lanes, 1)
  {
  }

  lemma UzpForms(i: PermuteInst, j: PermuteInst, n: Vec, m: Vec)
    requires BothForms(i, j, UZP)
    ensures PermutedVec(i, n, m) == Uzps(Wide(i.e), n, m, i.lanes, 0)
    ensures PermutedVec(j, n, m) == Uzps(Wide(i.e), n, m, i.lanes, 1)
  {
  }

  lemma TrnForms(i: PermuteInst, j: PermuteInst, n: Vec, m: Vec)
    requires BothForms(i, j, TRN)
    ensures PermutedVec(i, n, m) == Trns(Wide(i.e), n, m, i.lanes, 0)
    ensures PermutedVec(j, n, m) == Trns(Wide(i.e), n, m, i.lanes, 1)
  {
  }

  /** ZIP1 and ZIP2 and then UZP1 and UZP2, or TRN1 and TRN2 twice, four words in all, bring both source registers
      back, whatever else they overwrite; the 64-bit forms clear the upper halves. */
  lemma FourWords(a: Raw, b: Raw, c: Raw, d: Raw, s: Regs)
    requires DecodePermute(a).Some? && DecodePermute(b).Some? && DecodePermute(c).Some? && DecodePermute(d).Some?
    requires Inverse(DecodePermute(a).value, DecodePermute(b).value, DecodePermute(c).value, DecodePermute(d).value)
    ensures
      var i, j, k, l :=
        DecodePermute(a).value, DecodePermute(b).value, DecodePermute(c).value, DecodePermute(d).value;
      var t := Both(k, l, Both(i, j, s));
      V(t, k.rd) == Kept(V(s, i.rn), Offset(i.e, i.lanes)) && V(t, l.rd) == Kept(V(s, i.rm), Offset(i.e, i.lanes))
  {
    DecodedNamed(a);
    DecodedNamed(b);
    DecodedNamed(c);
    DecodedNamed(d);
    FourBack(DecodePermute(a).value, DecodePermute(b).value, DecodePermute(c).value, DecodePermute(d).value, s);
  }

  lemma FourBack(i: PermuteInst, j: PermuteInst, k: PermuteInst, l: PermuteInst, s: Regs)
    requires Inverse(i, j, k, l) && Named(i) && Named(j) && Named(k) && Named(l)
    ensures var t := Both(k, l, Both(i, j, s));
      V(t, k.rd) == Kept(V(s, i.rn), Offset(i.e, i.lanes)) && V(t, l.rd) == Kept(V(s, i.rm), Offset(i.e, i.lanes))
  {
    BothPermuted(i, j, i.opcode, s);
    BothPermuted(k, l, k.opcode, Both(i, j, s));
    VecsBack(i, j, k, l, V(s, i.rn), V(s, i.rm));
  }
}
