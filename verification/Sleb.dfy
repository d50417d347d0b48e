/** Signed LEB128, the numbers an APS2 stream is made of. */
module Sleb {
  import opened Words

  const B63 := 0x8000_0000_0000_0000

  type Int64 = x: int | -0x8000_0000_0000_0000 <= x < 0x8000_0000_0000_0000

  datatype Error = Truncated(pos: nat) | Overlong(pos: nat) | BadMagic | BadCount(n: int) | BadGroup(n: int)
  datatype Result<+T> = Ok(value: T) | Err(error: Error)

  /** The two's complement reading of a 64-bit word, and back. */
  function ToInt(u: Word): Int64 { if u < B63 then u else u - B64 }
  function ToWord(x: int): Word { x % B64 }

  /** v with the seven bits of c put above it. */
  function Add7(v: Word, c: byte, shift: nat): Word {
    if shift < 64 then (v + c % 128 * Pow2(shift)) % B64 else v
  }

  /** The number v ends as, with last byte c: negative if bit 6 of c is set and v has room for a sign above it. */
  function Finished(v: Word, c: byte, shift: nat): Int64 {
    ToInt(if shift < 64 && c >= 64 then ToWord(v - Pow2(shift)) else v)
  }

  /** The decoder from byte pos on, with v accumulated so far; the number and the position after it. */
  function SlebFrom(b: seq<byte>, pos: nat, v: Word, shift: nat): (r: (Result<Int64>, nat))
    requires shift <= 70 && pos <= |b|
    ensures pos <= r.1 <= |b| && (r.0.Ok? ==> pos < r.1)
    decreases 77 - shift
  {
    if pos >= |b| then (Err(Truncated(pos)), pos)
    else
      var c := b[pos];
      var v' := Add7(v, c, shift);
      if c < 128 then (Ok(Finished(v', c, shift + 7)), pos + 1)
      else if shift + 7 > 70 then (Err(Overlong(pos + 1)), pos + 1)
      else SlebFrom(b, pos + 1, v', shift + 7)
  }

  /** One number at a position, and the position after it. */
  type Reading = nat -> (Result<Int64>, nat)

  function SlebAt(b: seq<byte>, pos: nat): (r: (Result<Int64>, nat))
    ensures pos <= |b| ==> pos <= r.1 <= |b|
  {
    if pos > |b| then (Err(Truncated(pos)), pos) else SlebFrom(b, pos, 0, 0)
  }

  /** Reading numbers from the bytes b. */
  function Numbers(b: seq<byte>): Reading {
    p => SlebAt(b, p)
  }

  /** The stream and the position it is read from. */
  class Reader {
    const b: seq<byte>
    ghost const numbers: Reading
    var pos: nat

    ghost predicate Valid()
      reads this
    {
      pos <= |b| && forall p {:trigger SlebAt(b, p)} :: numbers(p) == SlebAt(b, p)
    }

    constructor (bytes: seq<byte>, start: nat)
      requires start <= |bytes|
      ensures Valid() && b == bytes && pos == start && numbers == Numbers(bytes)
    {
      b := bytes;
      numbers := Numbers(bytes);
      pos := start;
    }

    method Next() returns (r: Result<Int64>)
      requires Valid()
      modifies this
      ensures Valid() && old(pos) <= pos && (r, pos) == numbers(old(pos))
    {
      var v: Word := 0;
      var shift := 0;
      ghost var number := SlebAt(b, pos);
      assert numbers(pos) == number;
      while true
        invariant old(pos) <= pos <= |b| && shift <= 70 && SlebFrom(b, pos, v, shift) == number
        decreases 77 - shift
      {
        if pos >= |b| {
          return Err(Truncated(pos));
        }
        var c := b[pos];
        pos := pos + 1;
        v := Add7(v, c, shift);
        shift := shift + 7;
        if c < 128 {
          return Ok(Finished(v, c, shift));
        }
        if shift > 70 {
          return Err(Overlong(pos));
        }
      }
    }
  }

  // ---- the encoding ------------------------------------------------------------------------

  /** Seven bits at a time, low end first, until the rest is the sign of the byte written. */
  function Encode(v: int): (bs: seq<byte>)
    ensures |bs| > 0
    decreases if v >= 0 then v else -v - 1
  {
    var c, w := v % 128, v / 128;
    if (w == 0 && c < 64) || (w == -1 && c >= 64) then [c] else [c + 128] + Encode(w)
  }

  lemma Pow2At()
    ensures Pow2(7) == 128 && Pow2(63) == B63
  {
    assert Pow2(7) == 128;
    Pow2Sum(7, 7);
    Pow2Sum(14, 14);
    Pow2Sum(28, 28);
    Pow2Sum(7, 56);
  }

  /** The numbers that fit in the bits above shift. */
  predicate Fits(w: int, shift: nat)
    requires shift <= 63
  {
    0 - Pow2(63 - shift) <= w < Pow2(63 - shift)
  }

  lemma FitsScaled(w: int, shift: nat)
    requires shift <= 63 && Fits(w, shift)
    ensures -B63 <= w * Pow2(shift) <= B63 - Pow2(shift)
  {
    Pow2At();
    Pow2Sum(63 - shift, shift);
    assert 63 - shift + shift == 63;
    Scale(w, Pow2(63 - shift), Pow2(shift));
  }

  lemma Scale(w: int, q: nat, p: nat)
    requires 0 - q <= w < q
    ensures 0 - q * p <= w * p <= q * p - p
  {
    MulMono(p, 0 - q, w);
    MulMono(p, w, q - 1);
    assert p * (0 - q) == 0 - q * p && p * (q - 1) == q * p - p && p * w == w * p;
  }

  /** One more byte of an encoding. */
  lemma Peel(v: int, shift: nat, p: nat)
    requires p == Pow2(shift)
    ensures v == 128 * (v / 128) + v % 128 && v * p == v / 128 * (128 * p) + v % 128 * p && Pow2(shift + 7) == 128 * p
  {
    assert Pow2(7) == 128;
    Pow2Sum(7, shift);
    assert v == 128 * (v / 128) + v % 128;
    Expand(v / 128, v % 128, p);
  }

  lemma Expand(w: int, c: nat, p: nat)
    ensures (128 * w + c) * p == w * (128 * p) + c * p
  {
    assert (128 * w + c) * p == 128 * w * p + c * p;
    assert 128 * w * p == w * (128 * p);
  }

  lemma Room(w: int, shift: nat)
    requires shift <= 63 && shift % 7 == 0 && Fits(w, shift) && !(-64 <= w < 64)
    ensures shift + 7 <= 63 && Fits(w / 128, shift + 7)
  {
    assert Pow2(0) == 1;
    if shift <= 56 {
      Pow2At();
      Pow2Sum(7, 56 - shift);
    }
  }

  lemma LastByte(w: int)
    ensures -64 <= w < 64 <==> (w / 128 == 0 && w % 128 < 64) || (w / 128 == -1 && w % 128 >= 64)
  {
  }

  /** Decoding the encoding of w above an accumulated v adds w, shifted into place. */
  lemma {:induction false} DecodeEncoded(b: seq<byte>, pos: nat, w: int, v: Word, shift: nat)
    requires shift <= 63 && shift % 7 == 0 && Fits(w, shift) && v < Pow2(shift)
    requires pos + |Encode(w)| <= |b| && b[pos..pos + |Encode(w)|] == Encode(w)
    ensures -B63 <= v + w * Pow2(shift) < B63
    ensures SlebFrom(b, pos, v, shift) == (Ok(v + w * Pow2(shift)), pos + |Encode(w)|)
    decreases if w >= 0 then w else -w - 1
  {
    FitsScaled(w, shift);
    if -64 <= w < 64 {
      Peel(w, shift, Pow2(shift));
      LastOne(b, pos, w, v, shift, Pow2(shift));
    } else {
      var v' := FirstOne(b, pos, w, v, shift);
      DecodeEncoded(b, pos + 1, w / 128, v', shift + 7);
    }
  }

  /** A byte with more to come leaves the rest of the number to be added above it. */
  lemma FirstOne(b: seq<byte>, pos: nat, w: int, v: Word, shift: nat) returns (v': Word)
    requires shift <= 63 && shift % 7 == 0 && Fits(w, shift) && v < Pow2(shift) && !(-64 <= w < 64)
    requires pos + |Encode(w)| <= |b| && b[pos..pos + |Encode(w)|] == Encode(w)
    ensures shift + 7 <= 63 && Fits(w / 128, shift + 7) && v' < Pow2(shift + 7)
    ensures |Encode(w)| == 1 + |Encode(w / 128)|
    ensures b[pos + 1..pos + 1 + |Encode(w / 128)|] == Encode(w / 128)
    ensures v' + w / 128 * Pow2(shift + 7) == v + w * Pow2(shift)
    ensures SlebFrom(b, pos, v, shift) == SlebFrom(b, pos + 1, v', shift + 7)
  {
    var c, p := w % 128, Pow2(shift);
    v' := Add7(v, c, shift);
    Peel(w, shift, p);
    Room(w, shift);
    Rest(b, pos, w, Encode(w));
    InnerByte(v, c, shift, p);
    Gathered(v, v', c, w, w / 128, p, Pow2(shift + 7));
    Continues(b, pos, v, shift, c);
  }

  lemma Gathered(v: nat, v': nat, c: nat, w: int, high: int, p: nat, q: nat)
    requires v' == v + c * p && q == 128 * p && w * p == high * (128 * p) + c * p
    ensures v' + high * q == v + w * p
  {
  }

  lemma OneByte(b: seq<byte>, pos: nat, w: int)
    requires -64 <= w < 64 && pos + |Encode(w)| <= |b| && b[pos..pos + |Encode(w)|] == Encode(w)
    ensures Encode(w) == [w % 128] && pos < |b| && b[pos] == w % 128
  {
    LastByte(w);
    assert Encode(w) == [w % 128] && b[pos] == b[pos..pos + 1][0];
  }

  lemma LastOne(b: seq<byte>, pos: nat, w: int, v: Word, shift: nat, p: nat)
    requires -64 <= w < 64 && shift <= 63 && shift % 7 == 0 && p == Pow2(shift) && v < p && Fits(w, shift)
    requires -B63 <= w * p <= B63 - p && Pow2(shift + 7) == 128 * p
    requires pos + |Encode(w)| <= |b| && b[pos..pos + |Encode(w)|] == Encode(w)
    ensures |Encode(w)| == 1 && SlebFrom(b, pos, v, shift) == (Ok(v + w * p), pos + 1)
  {
    OneByte(b, pos, w);
    if shift == 63 {
      TopFits(w);
      TopByte(w, v, p);
      assert b[pos] % 128 == w % 128;
    } else {
      LowerByte(w, v, shift, p, w * p);
      SignBit(w);
    }
  }

  lemma SignBit(w: int)
    requires -64 <= w < 64
    ensures w < 0 <==> w % 128 >= 64
  {
  }

  lemma Rest(b: seq<byte>, pos: nat, w: int, e: seq<byte>)
    requires e == Encode(w) && !(-64 <= w < 64) && pos + |e| <= |b| && b[pos..pos + |e|] == e
    ensures b[pos] == w % 128 + 128 && |e| == 1 + |Encode(w / 128)|
    ensures b[pos + 1..pos + 1 + |Encode(w / 128)|] == Encode(w / 128)
  {
    LastByte(w);
    var s := b[pos..pos + |e|];
    assert s[1..] == e[1..] == Encode(w / 128) && s[0] == e[0];
    assert b[pos + 1..pos + 1 + |Encode(w / 128)|] == s[1..];
  }

  lemma Continues(b: seq<byte>, pos: nat, v: Word, shift: nat, c: nat)
    requires shift <= 56 && pos < |b| && c < 128 && b[pos] == c + 128
    ensures SlebFrom(b, pos, v, shift) == SlebFrom(b, pos + 1, Add7(v, c, shift), shift + 7)
  {
    assert (c + 128) % 128 == c % 128;
  }

  /** Seven bits above fewer bits: no carry. */
  lemma InnerByte(v: Word, c: nat, shift: nat, p: nat)
    requires shift <= 56 && p == Pow2(shift) && v < p && c < 128
    ensures Add7(v, c, shift) == v + c * p < 128 * p <= B63
  {
    Seven(shift, p);
    Below(v, c, p);
    DivModUnique(v + c * p, B64, 0, v + c * p);
  }

  lemma Below(v: nat, c: nat, p: nat)
    requires v < p && c < 128
    ensures v + c * p < 128 * p
  {
    MulMono(p, c, 127);
  }

  lemma Seven(shift: nat, p: nat)
    requires shift <= 56 && p == Pow2(shift)
    ensures 128 * p <= B63
  {
    Pow2At();
    Pow2Sum(7, shift);
    Pow2Sum(56 - shift, shift + 7);
    AtMost(Pow2(shift + 7), Pow2(56 - shift));
  }

  lemma AtMost(q: nat, r: nat)
    requires r >= 1
    ensures q <= r * q
  {
    MulMono(q, 1, r);
  }

  lemma TopFits(w: int)
    requires Fits(w, 63)
    ensures w == 0 || w == -1
  {
    assert Pow2(0) == 1;
  }

  /** The last byte sets the remaining bits, sign and all. */
  lemma LowerByte(w: int, v: Word, shift: nat, p: nat, wp: int)
    requires -64 <= w < 64 && shift <= 56 && p == Pow2(shift) && v < p && wp == w * p && -B63 <= wp <= B63 - p
    ensures ToInt(if w < 0 then ToWord(Add7(v, w % 128, shift) - 128 * p) else Add7(v, w % 128, shift)) == v + wp
  {
    InnerByte(v, w % 128, shift, p);
    Turned(v + wp);
    if w < 0 {
      Negative(w, p);
    } else {
      assert w % 128 * p == wp;
    }
  }

  lemma Turned(x: int)
    requires -B63 <= x < B63
    ensures ToInt(ToWord(x)) == x
  {
  }

  lemma TopByte(w: int, v: Word, p: nat)
    requires (w == 0 || w == -1) && p == Pow2(63) && v < p
    ensures ToInt(Add7(v, w % 128, 63)) == v + w * p
  {
    Pow2At();
    assert w * p == if w == 0 then 0 else 0 - B63;
    assert w % 128 == if w == 0 then 0 else 127;
    assert w % 128 % 128 == w % 128;
    if w == 0 {
      DivModUnique(v, B64, 0, v);
    } else {
      assert v + 127 * B63 == B64 * 63 + (v + B63);
      DivModUnique(v + 127 * B63, B64, 63, v + B63);
    }
  }

  lemma Negative(w: int, p: nat)
    requires -64 <= w < 0
    ensures w % 128 >= 64 && w % 128 * p == w * p + 128 * p
  {
    assert w % 128 == w + 128;
    assert (w + 128) * p == w * p + 128 * p;
  }

  /** Every 64-bit number comes back from its encoding, wherever that stands in a stream. */
  lemma RoundTrip(b: seq<byte>, pos: nat, v: Int64)
    requires pos + |Encode(v)| <= |b| && b[pos..pos + |Encode(v)|] == Encode(v)
    ensures SlebAt(b, pos) == (Ok(v), pos + |Encode(v)|)
  {
    Pow2At();
    assert Pow2(0) == 1;
    DecodeEncoded(b, pos, v, 0, 0);
  }
}
