/** Relative relocations in the RELR encoding: address words and bitmap words. */
module Relr {
  import opened Words
  import opened Packed

  const RELATIVE := 1027  // R_AARCH64_RELATIVE

  function Rel(at: Word, implicit: Implicit): Reloc {
    Reloc(at, RELATIVE, 0, ImplicitAt(implicit, at))
  }

  /** One relocation for each set bit, eight bytes apart. */
  function Bitmap(bits: nat, at: Word, implicit: Implicit): seq<Reloc> {
    if bits == 0 then []
    else (if bits % 2 == 1 then [Rel(at, implicit)] else []) + Bitmap(bits / 2, (at + 8) % B64, implicit)
  }

  /** An even word is an address; an odd one has a bit for each of the 63 slots from where on. */
  function Relocs(words: seq<Word>, where: Word, implicit: Implicit): seq<Reloc> {
    if |words| == 0 then []
    else if words[0] % 2 == 0 then
      [Rel(words[0], implicit)] + Relocs(words[1..], (words[0] + 8) % B64, implicit)
    else Bitmap(words[0] / 2, where, implicit) + Relocs(words[1..], (where + 63 * 8) % B64, implicit)
  }

  /** The words of a section; bytes after the last whole word are ignored. */
  function WordsOf(data: seq<byte>): seq<Word> {
    if |data| < 8 then []
    else
      Pow256Words();
      [FromLE(data[..8])] + WordsOf(data[8..])
  }

  // ---- the loops ------------------------------------------------------------------------------

  method EmitBitmap(e: Word, where: Word, implicit: Implicit, sofar: seq<Reloc>) returns (out: seq<Reloc>)
    ensures out == sofar + Bitmap(e / 2, where, implicit)
  {
    out := sofar;
    var at: Word, bits: nat := where, e / 2;
    while bits != 0
      invariant out + Bitmap(bits, at, implicit) == sofar + Bitmap(e / 2, where, implicit)
      decreases bits
    {
      if bits % 2 != 0 {
        out := out + [Rel(at, implicit)];
      }
      at := (at + 8) % B64;
      bits := bits / 2;
    }
  }

  lemma NextWord(data: seq<byte>, off: nat)
    requires off + 8 <= |data|
    ensures FromLE(data[off..off + 8]) < B64
    ensures WordsOf(data[off..]) == [FromLE(data[off..off + 8])] + WordsOf(data[off + 8..])
  {
    Pow256Words();
    assert data[off..][..8] == data[off..off + 8] && data[off..][8..] == data[off + 8..];
  }

  /** One word: the relocations it stands for, and where the slots of the next bitmap start. */
  method DecodeWord(e: Word, where: Word, implicit: Implicit, sofar: seq<Reloc>, ghost rest: seq<Word>)
    returns (out: seq<Reloc>, next: Word)
    ensures out + Relocs(rest, next, implicit) == sofar + Relocs([e] + rest, where, implicit)
  {
    assert ([e] + rest)[1..] == rest;
    if e % 2 == 0 {
      out, next := sofar + [Rel(e, implicit)], (e + 8) % B64;
    } else {
      out := EmitBitmap(e, where, implicit, sofar);
      next := (where + 63 * 8) % B64;
    }
  }

  method DecodeRelr(data: seq<byte>, implicit: Implicit) returns (out: seq<Reloc>)
    ensures out == Relocs(WordsOf(data), 0, implicit)
  {
    out := [];
    var where: Word, off: nat := 0, 0;
    assert data[0..] == data;
    while off + 8 <= |data|
      invariant off <= |data|
        && out + Relocs(WordsOf(data[off..]), where, implicit) == Relocs(WordsOf(data), 0, implicit)
      decreases |data| - off
    {
      NextWord(data, off);
      var e: Word := FromLE(data[off..off + 8]);
      out, where := DecodeWord(e, where, implicit, out, WordsOf(data[off + 8..]));
      off := off + 8;
    }
    assert WordsOf(data[off..]) == [];
  }

  // ---- how many ---------------------------------------------------------------------------------

  function Ones(bits: nat): nat {
    if bits == 0 then 0 else bits % 2 + Ones(bits / 2)
  }

  /** One for an address word, the number of set bits for a bitmap word. */
  function Entries(words: seq<Word>): nat {
    if |words| == 0 then 0 else (if words[0] % 2 == 0 then 1 else Ones(words[0] / 2)) + Entries(words[1..])
  }

  lemma {:induction false} BitmapCount(bits: nat, at: Word, implicit: Implicit)
    ensures |Bitmap(bits, at, implicit)| == Ones(bits)
  {
    if bits > 0 {
      BitmapCount(bits / 2, (at + 8) % B64, implicit);
    }
  }

  /** For any words, the relocations are as many as the address words and the set bits of the bitmap words. */
  lemma {:induction false} RelrCount(words: seq<Word>, where: Word, implicit: Implicit)
    ensures |Relocs(words, where, implicit)| == Entries(words)
  {
    if |words| > 0 {
      if words[0] % 2 == 0 {
        RelrCount(words[1..], (words[0] + 8) % B64, implicit);
      } else {
        BitmapCount(words[0] / 2, where, implicit);
        RelrCount(words[1..], (where + 63 * 8) % B64, implicit);
      }
    }
  }

  // ---- the encoder of the generic ABI -----------------------------------------------------------------

  predicate Increasing(l: seq<Word>) {
    forall i, j :: 0 <= i < j < |l| ==> l[i] < l[j]
  }

  predicate Even(l: seq<Word>) {
    forall i :: 0 <= i < |l| ==> l[i] % 2 == 0
  }

  /** Whether an address is one of the 63 slots from base. */
  predicate InMap(a: nat, base: nat) {
    base <= a < base + 63 * 8 && (a - base) % 8 == 0
  }

  /** How many of the first addresses go into the next bitmap. */
  function PrefixLen(l: seq<Word>, base: nat): (n: nat)
    ensures n <= |l| && forall i :: 0 <= i < n ==> InMap(l[i], base)
  {
    if |l| == 0 || !InMap(l[0], base) then 0 else 1 + PrefixLen(l[1..], base)
  }

  /** Bit (a - base) / 8 for each address a. */
  function Mask(l: seq<Word>, base: nat): nat
    requires forall i :: 0 <= i < |l| ==> l[i] >= base
  {
    if |l| == 0 then 0 else Pow2((l[0] - base) / 8) + Mask(l[1..], base)
  }

  function Next(at: nat): nat { at + 8 }

  /** Bitmaps while they catch an address, then a new address word. */
  function EncodeMaps(l: seq<Word>, base: nat): seq<Word>
    requires Increasing(l)
    decreases |l|, 1
  {
    var n := PrefixLen(l, base);
    if n == 0 then Encode(l)
    else
      assert forall i :: 0 <= i < n ==> InMap(l[..n][i], base);
      MaskFits(l[..n], base, 63);
      Pow63();
      [2 * Mask(l[..n], base) + 1] + EncodeMaps(l[n..], base + 63 * 8)
  }

  function Encode(l: seq<Word>): seq<Word>
    requires Increasing(l)
    decreases |l|, 0
  {
    if |l| == 0 then [] else [l[0]] + EncodeMaps(l[1..], Next(l[0]))
  }

  lemma Pow63()
    ensures 2 * Pow2(63) == B64
  {
    Pow2Sum(32, 31);
    assert Pow2(16) == 0x1_0000;
    Pow2Sum(16, 16);
    Pow2Sum(16, 15);
    assert Pow2(15) == 0x8000;
  }

  predicate Slots(l: seq<Word>, at: nat, n: nat) {
    forall i :: 0 <= i < |l| ==> at <= l[i] < at + 8 * n && (l[i] - at) % 8 == 0
  }

  /** The addresses above slot at. */
  function Above(l: seq<Word>, at: nat): seq<Word> {
    if |l| > 0 && l[0] == at then l[1..] else l
  }

  lemma AboveSlots(l: seq<Word>, at: nat, n: nat)
    requires Increasing(l) && Slots(l, at, n) && n > 0
    ensures Increasing(Above(l, at)) && Slots(Above(l, at), at + 8, n - 1)
  {
    var t := Above(l, at);
    forall i | 0 <= i < |t| ensures at + 8 <= t[i] < at + 8 * n && (t[i] - (at + 8)) % 8 == 0 {
      if l[0] == at {
        assert t[i] == l[i + 1] && l[0] < l[i + 1];
      } else {
        assert i > 0 ==> l[0] < l[i];
      }
      SlotAfter(t[i] - at);
    }
  }

  lemma SlotAfter(d: nat)
    requires d % 8 == 0 && d > 0
    ensures d >= 8 && (d - 8) % 8 == 0
  {
  }

  /** Seen from the next slot on, the mask is halved, with the lowest bit for an address at this slot. */
  lemma {:induction false} MaskStep(l: seq<Word>, at: nat, n: nat)
    requires Increasing(l) && Slots(l, at, n) && n > 0
    ensures Increasing(Above(l, at)) && Slots(Above(l, at), at + 8, n - 1)
    ensures Mask(l, at) == 2 * Mask(Above(l, at), at + 8) + if |l| > 0 && l[0] == at then 1 else 0
  {
    AboveSlots(l, at, n);
    MaskDouble(Above(l, at), at);
    assert Pow2(0) == 1;
  }

  lemma {:induction false} MaskDouble(l: seq<Word>, at: nat)
    requires forall i :: 0 <= i < |l| ==> l[i] >= at + 8
    ensures Mask(l, at) == 2 * Mask(l, at + 8)
  {
    if |l| > 0 {
      MaskDouble(l[1..], at);
      assert (l[0] - at) / 8 == (l[0] - (at + 8)) / 8 + 1;
    }
  }

  lemma {:induction false} MaskFits(l: seq<Word>, at: nat, n: nat)
    requires Increasing(l) && Slots(l, at, n)
    ensures Mask(l, at) < Pow2(n)
    decreases n
  {
    if n > 0 {
      MaskStep(l, at, n);
      MaskFits(Above(l, at), at + 8, n - 1);
    }
  }

  function Rels(l: seq<Word>, implicit: Implicit): (r: seq<Reloc>)
    ensures |r| == |l|
  {
    seq(|l|, i requires 0 <= i < |l| => Rel(l[i], implicit))
  }

  lemma RelsConcat(a: seq<Word>, b: seq<Word>, implicit: Implicit)
    ensures Rels(a + b, implicit) == Rels(a, implicit) + Rels(b, implicit)
  {
  }

  lemma RelsFirst(l: seq<Word>, implicit: Implicit)
    requires |l| > 0
    ensures Rels(l, implicit) == [Rel(l[0], implicit)] + Rels(l[1..], implicit)
  {
  }

  ghost predicate GivesBack(l: seq<Word>, at: nat, implicit: Implicit)
    requires forall i :: 0 <= i < |l| ==> l[i] >= at
  {
    Bitmap(Mask(l, at), at % B64, implicit) == Rels(l, implicit)
  }

  /** A bitmap gives back its addresses in order. */
  lemma {:induction false} BitmapOfMask(l: seq<Word>, at: nat, n: nat, implicit: Implicit)
    requires Increasing(l) && Slots(l, at, n)
    ensures GivesBack(l, at, implicit)
    decreases n
  {
    if |l| > 0 {
      assert at <= l[0] < at + 8 * n;
      MaskStep(l, at, n);
      BitmapOfMask(Above(l, at), at + 8, n - 1, implicit);
      GivesBackStep(l, at, n, implicit);
    }
  }

  lemma GivesBackStep(l: seq<Word>, at: nat, n: nat, implicit: Implicit)
    requires |l| > 0 && n > 0 && Increasing(l) && Slots(l, at, n) && Slots(Above(l, at), at + 8, n - 1)
    requires GivesBack(Above(l, at), at + 8, implicit)
    ensures GivesBack(l, at, implicit)
  {
    var t := Above(l, at);
    MaskStep(l, at, n);
    MaskPositive(l, at);
    BitmapStep(Mask(l, at), at, implicit);
    Halves(Mask(l, at), Mask(t, at + 8), l[0] == at);
    RelsFirst(l, implicit);
    assert l[0] == at ==> at % B64 == at;
  }

  lemma Halves(m: nat, h: nat, odd: bool)
    requires m == 2 * h + if odd then 1 else 0
    ensures m / 2 == h && (m % 2 == 1 <==> odd)
  {
  }

  lemma BitmapStep(bits: nat, at: nat, implicit: Implicit)
    requires bits > 0
    ensures Bitmap(bits, at % B64, implicit) ==
      (if bits % 2 == 1 then [Rel(at % B64, implicit)] else []) + Bitmap(bits / 2, (at + 8) % B64, implicit)
  {
    assert (at % B64 + 8) % B64 == (at + 8) % B64;
  }

  lemma MaskPositive(l: seq<Word>, at: nat)
    requires |l| > 0 && forall i :: 0 <= i < |l| ==> l[i] >= at
    ensures Mask(l, at) > 0
  {
  }

  ghost predicate MapsGive(l: seq<Word>, base: nat, implicit: Implicit)
    requires Increasing(l)
  {
    Relocs(EncodeMaps(l, base), base % B64, implicit) == Rels(l, implicit)
  }

  lemma {:induction false} MapsRoundTrip(l: seq<Word>, base: nat, implicit: Implicit)
    requires Increasing(l) && Even(l)
    ensures MapsGive(l, base, implicit)
    decreases |l|, 1
  {
    var n := PrefixLen(l, base);
    if n == 0 {
      RelrRoundTrip(l, base % B64, implicit);
    } else {
      Parts(l, n);
      MapsRoundTrip(l[n..], base + 63 * 8, implicit);
      MapsStep(l, base, n, implicit);
    }
  }

  lemma MapsStep(l: seq<Word>, base: nat, n: nat, implicit: Implicit)
    requires Increasing(l) && Even(l) && n == PrefixLen(l, base) > 0 && Increasing(l[n..])
      && MapsGive(l[n..], base + 63 * 8, implicit)
    ensures MapsGive(l, base, implicit)
  {
    Parts(l, n);
    MapsUnfold(l, base, n);
    BitmapOfMask(l[..n], base, 63, implicit);
    MapFirst(l, base, l[..n], l[n..], implicit);
  }

  lemma Parts(l: seq<Word>, n: nat)
    requires Increasing(l) && Even(l) && n <= |l|
    ensures Increasing(l[..n]) && Increasing(l[n..]) && Even(l[n..]) && l == l[..n] + l[n..]
  {
  }

  lemma MapFirst(l: seq<Word>, base: nat, here: seq<Word>, tail: seq<Word>, implicit: Implicit)
    requires Increasing(l) && l == here + tail && Increasing(tail)
    requires (forall i :: 0 <= i < |here| ==> here[i] >= base) && GivesBack(here, base, implicit)
    requires MapsGive(tail, base + 63 * 8, implicit) && 2 * Mask(here, base) + 1 < B64
    requires EncodeMaps(l, base) == [2 * Mask(here, base) + 1] + EncodeMaps(tail, base + 63 * 8)
    ensures MapsGive(l, base, implicit)
  {
    MapWords(EncodeMaps(l, base), Mask(here, base), EncodeMaps(tail, base + 63 * 8), base, here, tail, implicit);
  }

  lemma MapWords(words: seq<Word>, mask: nat, rest: seq<Word>, base: nat, here: seq<Word>, tail: seq<Word>,
      implicit: Implicit)
    requires 2 * mask + 1 < B64 && words == [2 * mask + 1] + rest
    requires Bitmap(mask, base % B64, implicit) == Rels(here, implicit)
    requires Relocs(rest, (base + 63 * 8) % B64, implicit) == Rels(tail, implicit)
    ensures Relocs(words, base % B64, implicit) == Rels(here + tail, implicit)
  {
    SlotsWrap(base);
    MapWord(words, mask, rest, base % B64, implicit);
    RelsConcat(here, tail, implicit);
  }

  lemma MapsUnfold(l: seq<Word>, base: nat, n: nat)
    requires Increasing(l) && n == PrefixLen(l, base) > 0
    ensures Slots(l[..n], base, 63) && 2 * Mask(l[..n], base) + 1 < B64
    ensures EncodeMaps(l, base) == [2 * Mask(l[..n], base) + 1] + EncodeMaps(l[n..], base + 63 * 8)
  {
    assert forall i :: 0 <= i < n ==> InMap(l[..n][i], base);
    MaskFits(l[..n], base, 63);
    Pow63();
  }

  lemma SlotsWrap(base: nat)
    ensures (base % B64 + 63 * 8) % B64 == (base + 63 * 8) % B64
  {
  }

  lemma MapWord(words: seq<Word>, mask: nat, rest: seq<Word>, where: Word, implicit: Implicit)
    requires 2 * mask + 1 < B64 && words == [2 * mask + 1] + rest
    ensures Relocs(words, where, implicit)
      == Bitmap(mask, where, implicit) + Relocs(rest, (where + 63 * 8) % B64, implicit)
  {
    assert words[1..] == rest && words[0] / 2 == mask;
  }

  /** Decoding inverts the ABI's encoding of every strictly increasing list of even addresses. */
  lemma {:induction false} RelrRoundTrip(l: seq<Word>, where: Word, implicit: Implicit)
    requires Increasing(l) && Even(l)
    ensures Relocs(Encode(l), where, implicit) == Rels(l, implicit)
    decreases |l|, 0
  {
    if |l| > 0 {
      MapsRoundTrip(l[1..], Next(l[0]), implicit);
      assert Encode(l)[1..] == EncodeMaps(l[1..], Next(l[0]));
    }
  }

  // ---- in bytes --------------------------------------------------------------------------------------

  /** The words of a section, eight bytes each. */
  function Serialised(words: seq<Word>): seq<byte> {
    if |words| == 0 then [] else ToLE(words[0], 8) + Serialised(words[1..])
  }

  lemma {:induction false} WordsBack(words: seq<Word>, more: seq<byte>)
    requires |more| < 8
    ensures WordsOf(Serialised(words) + more) == words
  {
    if |words| == 0 {
      assert Serialised(words) + more == more;
    } else {
      var first, rest := ToLE(words[0], 8), Serialised(words[1..]) + more;
      assert Serialised(words) + more == first + rest;
      TwoParts(first, rest);
      WordBack(words[0]);
      WordsBack(words[1..], more);
    }
  }

  /** Decoding the bytes of the ABI's encoding gives the list back, whatever partial word follows. */
  lemma RelrBytesRoundTrip(l: seq<Word>, implicit: Implicit, more: seq<byte>)
    requires Increasing(l) && Even(l) && |more| < 8
    ensures Relocs(WordsOf(Serialised(Encode(l)) + more), 0, implicit) == Rels(l, implicit)
  {
    WordsBack(Encode(l), more);
    RelrRoundTrip(l, 0, implicit);
  }

  // ---- plain REL sections --------------------------------------------------------------------------

  /** One 16-byte record: offset, then symbol and type. */
  function Record(b: seq<byte>, implicit: Implicit): Reloc
    requires |b| == 16
  {
    Pow256Words();
    var at, info := FromLE(b[..8]), FromLE(b[8..]);
    Reloc(at, info % B32, info / B32, ImplicitAt(implicit, at))
  }

  function Records(data: seq<byte>, implicit: Implicit): seq<Reloc> {
    if |data| < 16 then [] else [Record(data[..16], implicit)] + Records(data[16..], implicit)
  }

  method DecodeRel(data: seq<byte>, implicit: Implicit) returns (out: seq<Reloc>)
    ensures out == Records(data, implicit)
  {
    out := [];
    var off: nat := 0;
    assert data[0..] == data;
    while off + 16 <= |data|
      invariant off <= |data| && out + Records(data[off..], implicit) == Records(data, implicit)
      decreases |data| - off
    {
      assert data[off..][..16] == data[off..off + 16] && data[off..][16..] == data[off + 16..];
      out := out + [Record(data[off..off + 16], implicit)];
      off := off + 16;
    }
  }

  function EncodeRel(rs: seq<Reloc>): seq<byte> {
    if |rs| == 0 then [] else ToLE(rs[0].offset, 8) + ToLE(rs[0].sym * B32 + rs[0].kind, 8) + EncodeRel(rs[1..])
  }

  /** Decoding inverts encoding for lists whose addends are the implicit ones, and ignores what follows the last
      record. */
  lemma {:induction false} RelRoundTrip(rs: seq<Reloc>, implicit: Implicit, more: seq<byte>)
    requires |more| < 16 && forall i :: 0 <= i < |rs| ==> rs[i].addend == ImplicitAt(implicit, rs[i].offset)
    ensures Records(EncodeRel(rs) + more, implicit) == rs
  {
    if |rs| == 0 {
      assert EncodeRel(rs) + more == more;
    } else {
      var first, rest := ToLE(rs[0].offset, 8) + ToLE(rs[0].sym * B32 + rs[0].kind, 8), EncodeRel(rs[1..]) + more;
      assert EncodeRel(rs) + more == first + rest;
      TwoParts(first, rest);
      RecordBack(rs[0], implicit);
      RelRoundTrip(rs[1..], implicit, more);
    }
  }

  lemma RecordBack(r: Reloc, implicit: Implicit)
    requires r.addend == ImplicitAt(implicit, r.offset)
    ensures Record(ToLE(r.offset, 8) + ToLE(r.sym * B32 + r.kind, 8), implicit) == r
  {
    var info := r.sym * B32 + r.kind;
    var a, b := ToLE(r.offset, 8), ToLE(info, 8);
    assert (a + b)[..8] == a && (a + b)[8..] == b;
    WordBack(r.offset);
    WordBack(info);
    InfoParts(r.sym, r.kind);
  }

  lemma WordBack(v: Word)
    ensures FromLE(ToLE(v, 8)) == v
  {
    FromToLE(v, 8);
    Pow256Words();
  }

  lemma InfoParts(sym: Half32, kind: Half32)
    ensures (sym * B32 + kind) % B32 == kind && (sym * B32 + kind) / B32 == sym
  {
  }
}
