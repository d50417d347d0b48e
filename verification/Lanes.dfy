/** SIMD&FP registers as vectors of lanes. */
module Lanes {
  import opened Words

  /** A 128-bit register: bits 63:0 and 127:64. */
  datatype Vec = Vec(lo: Word, hi: Word)

  /** The byte offset idx * e of a lane. */
  function Offset(e: nat, idx: nat): nat
    requires AccessSize(e)
  {
    if e == 1 then idx else if e == 2 then 2 * idx else if e == 4 then 4 * idx else 8 * idx
  }

  /** Where a lane lies within its half of the register. */
  function Within(e: nat, idx: nat): (k: nat)
    requires AccessSize(e)
    ensures k == Offset(e, idx) % 8 && k + e <= 8
  {
    DivModUnique(2 * idx, 8, idx / 4, 2 * (idx % 4));
    DivModUnique(4 * idx, 8, idx / 2, 4 * (idx % 2));
    DivModUnique(8 * idx, 8, idx, 0);
    if e == 1 then idx % 8 else if e == 2 then 2 * (idx % 4) else if e == 4 then 4 * (idx % 2) else 0
  }

  /** w shifted right by k bytes and masked to e bytes. */
  function Field(w: Word, k: nat, e: nat): nat {
    w / Pow256(k) % Pow256(e)
  }

  /** w with the field of e bytes at k cleared and the low e bytes of x put there. */
  function PutField(w: Word, k: nat, e: nat, x: nat): (r: Word)
    requires k + e <= 8
  {
    PutFieldBytes(w, k, e, x);
    w - Field(w, k, e) * Pow256(k) + x % Pow256(e) * Pow256(k)
  }

  /** Lane idx of width e bytes, counted from the low end. */
  function GetLane(v: Vec, e: nat, idx: nat): nat
    requires AccessSize(e)
  {
    Field(if Offset(e, idx) / 8 == 0 then v.lo else v.hi, Within(e, idx), e)
  }

  function SetLane(v: Vec, e: nat, idx: nat, x: nat): Vec
    requires AccessSize(e)
  {
    if Offset(e, idx) / 8 == 0 then v.(lo := PutField(v.lo, Within(e, idx), e, x))
    else v.(hi := PutField(v.hi, Within(e, idx), e, x))
  }

  // ---- words as eight bytes -----------------------------------------------------

  function Bytes(w: Word): (bs: seq<byte>)
    ensures |bs| == 8
  {
    ToLE(w, 8)
  }

  lemma WordBytes(w: Word)
    ensures FromLE(Bytes(w)) == w
  {
    FromToLE(w, 8);
    Pow256Words();
  }

  lemma FieldBytes(w: Word, k: nat, e: nat)
    requires k + e <= 8
    ensures Field(w, k, e) == FromLE(Bytes(w)[k..k + e])
  {
    WordBytes(w);
    ShiftMask(Bytes(w), k);
    ShiftMask(Bytes(w)[k..], e);
    assert Bytes(w)[k..][..e] == Bytes(w)[k..k + e];
  }

  function PutBytes(w: Word, k: nat, e: nat, x: nat): (bs: seq<byte>)
    requires k + e <= 8
    ensures |bs| == 8
  {
    Bytes(w)[..k] + ToLE(x, e) + Bytes(w)[k + e..]
  }

  lemma PutFieldBytes(w: Word, k: nat, e: nat, x: nat)
    requires k + e <= 8
    ensures w - Field(w, k, e) * Pow256(k) + x % Pow256(e) * Pow256(k) == FromLE(PutBytes(w, k, e, x)) < B64
  {
    var lo, mid, repl, hi := Bytes(w)[..k], Bytes(w)[k..k + e], ToLE(x, e), Bytes(w)[k + e..];
    assert lo + mid + hi == Bytes(w);
    WordBytes(w);
    FieldBytes(w, k, e);
    FromToLE(x, e);
    Splice(lo, mid, repl, hi);
    BytesBound(PutBytes(w, k, e, x));
  }

  /** Exchanging the middle of a byte string changes its number by the difference, scaled. */
  lemma Splice(lo: seq<byte>, mid: seq<byte>, repl: seq<byte>, hi: seq<byte>)
    requires |repl| == |mid|
    ensures FromLE(lo + mid + hi) - FromLE(mid) * Pow256(|lo|) + FromLE(repl) * Pow256(|lo|) == FromLE(lo + repl + hi)
  {
    ThreeParts(lo, mid, hi);
    ThreeParts(lo, repl, hi);
    assert Pow256(|lo| + |mid|) * FromLE(hi) == Pow256(|lo| + |repl|) * FromLE(hi);
  }

  lemma BytesBound(bs: seq<byte>)
    requires |bs| == 8
    ensures FromLE(bs) < B64
  {
    Pow256Words();
  }

  lemma ThreeParts(lo: seq<byte>, mid: seq<byte>, hi: seq<byte>)
    ensures FromLE(lo + mid + hi) ==
      FromLE(lo) + FromLE(mid) * Pow256(|lo|) + Pow256(|lo| + |mid|) * FromLE(hi)
  {
    FromLEConcat(lo + mid, hi);
    FromLEConcat(lo, mid);
    assert Pow256(|lo|) * FromLE(mid) == FromLE(mid) * Pow256(|lo|);
  }

  lemma PutFieldIsBytes(w: Word, k: nat, e: nat, x: nat)
    requires k + e <= 8
    ensures Bytes(PutField(w, k, e, x)) == PutBytes(w, k, e, x)
  {
    PutFieldBytes(w, k, e, x);
    ToFromLE(PutBytes(w, k, e, x));
  }

  /** Putting a field changes that field to the low bytes put, and no other field. */
  lemma FieldPut(w: Word, k: nat, e: nat, x: nat, j: nat, d: nat)
    requires k + e <= 8 && j + d <= 8 && ((j == k && d == e) || j + d <= k || k + e <= j)
    ensures Field(PutField(w, k, e, x), j, d) == if j == k && d == e then x % Pow256(e) else Field(w, j, d)
  {
    FieldBytes(PutField(w, k, e, x), j, d);
    FieldBytes(w, j, d);
    PutFieldIsBytes(w, k, e, x);
    FromToLE(x, e);
    PutSlice(w, k, e, x, j, d);
  }

  lemma PutSlice(w: Word, k: nat, e: nat, x: nat, j: nat, d: nat)
    requires k + e <= 8 && j + d <= 8 && ((j == k && d == e) || j + d <= k || k + e <= j)
    ensures PutBytes(w, k, e, x)[j..j + d] == if j == k && d == e then ToLE(x, e) else Bytes(w)[j..j + d]
  {
    var l, put := PutBytes(w, k, e, x)[j..j + d], ToLE(x, e);
    if j == k && d == e {
      forall i | 0 <= i < d ensures l[i] == put[i] {
        PutAt(w, k, e, x, j + i);
      }
      assert l == put;
    } else {
      var kept := Bytes(w)[j..j + d];
      forall i | 0 <= i < d ensures l[i] == kept[i] {
        PutAt(w, k, e, x, j + i);
      }
      assert l == kept;
    }
  }

  lemma PutAt(w: Word, k: nat, e: nat, x: nat, i: nat)
    requires k + e <= 8 && i < 8
    ensures PutBytes(w, k, e, x)[i] == if k <= i < k + e then ToLE(x, e)[i - k] else Bytes(w)[i]
  {
  }

  // ---- lanes --------------------------------------------------------------------------

  /** Setting a lane changes that lane to the low bytes put, and no other lane. */
  lemma GetSetLane(v: Vec, e: nat, i: nat, x: nat, j: nat)
    requires AccessSize(e) && Offset(e, i) < 16 && Offset(e, j) < 16
    ensures GetLane(SetLane(v, e, i, x), e, j) == if i == j then x % Pow256(e) else GetLane(v, e, j)
  {
    if Offset(e, i) / 8 == Offset(e, j) / 8 {
      FieldPut(if Offset(e, i) / 8 == 0 then v.lo else v.hi, Offset(e, i) % 8, e, x, Offset(e, j) % 8, e);
    }
  }

  /** A register is determined by its lanes. */
  lemma SameLanes(v: Vec, w: Vec, e: nat)
    requires AccessSize(e) && forall i :: i >= 0 && Offset(e, i) < 16 ==> GetLane(v, e, i) == GetLane(w, e, i)
    ensures v == w
  {
    SameWord(v.lo, w.lo, e, 0, v, w);
    SameWord(v.hi, w.hi, e, 8, v, w);
  }

  /** The lane that holds byte x. */
  function LaneOf(e: nat, x: nat): (i: nat)
    requires AccessSize(e)
    ensures Offset(e, i) <= x < Offset(e, i) + e
    ensures x < 8 ==> Offset(e, i) / 8 == 0
    ensures 8 <= x < 16 ==> Offset(e, i) / 8 == 1
  {
    if e == 1 then x else if e == 2 then x / 2 else if e == 4 then x / 4 else x / 8
  }

  lemma SameBytes(a: Word, b: Word, j: nat, e: nat, k: nat)
    requires j <= k < j + e <= 8 && Field(a, j, e) == Field(b, j, e)
    ensures Bytes(a)[k] == Bytes(b)[k]
  {
    FieldBytes(a, j, e);
    FieldBytes(b, j, e);
    ToFromLE(Bytes(a)[j..j + e]);
    ToFromLE(Bytes(b)[j..j + e]);
    assert Bytes(a)[k] == Bytes(a)[j..j + e][k - j];
    assert Bytes(b)[k] == Bytes(b)[j..j + e][k - j];
  }

  lemma SameWord(a: Word, b: Word, e: nat, base: nat, v: Vec, w: Vec)
    requires AccessSize(e) && (base == 0 || base == 8)
    requires a == (if base == 0 then v.lo else v.hi) && b == if base == 0 then w.lo else w.hi
    requires forall i :: i >= 0 && Offset(e, i) < 16 ==> GetLane(v, e, i) == GetLane(w, e, i)
    ensures a == b
  {
    forall k | 0 <= k < 8 ensures Bytes(a)[k] == Bytes(b)[k] {
      var i := LaneOf(e, base + k);
      var j := Offset(e, i) % 8;
      assert GetLane(v, e, i) == GetLane(w, e, i);
      SameBytes(a, b, j, e, k);
    }
    WordBytes(a);
    WordBytes(b);
    assert Bytes(a) == Bytes(b);
  }

  // ---- short forms ----------------------------------------------------------------------------

  lemma ZeroLane(e: nat, x: nat)
    requires AccessSize(e)
    ensures GetLane(Vec(0, 0), e, x) == Field(0, Within(e, x), e) == 0
  {
    DivModUnique(0, Pow256(Within(e, x)), 0, 0);
    DivModUnique(0, Pow256(e), 0, 0);
  }

  /** What a form of 8 or 16 bytes keeps of a register: its low half, or all of it. */
  function Kept(v: Vec, bytes: nat): Vec {
    if bytes == 16 then v else Vec(v.lo, 0)
  }

  lemma KeptLane(v: Vec, e: nat, lanes: nat, x: nat)
    requires AccessSize(e) && (Offset(e, lanes) == 8 || Offset(e, lanes) == 16) && Offset(e, x) < 16
    ensures GetLane(Kept(v, Offset(e, lanes)), e, x) == if x < lanes then GetLane(v, e, x) else 0
  {
    ZeroLane(e, x);
  }
}
