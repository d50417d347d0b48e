/** What data processing means as arithmetic on numbers, and that the bitwise handlers compute it. */
module DataLaws {
  import opened Words
  import opened Instructions
  import opened Bitfield
  import opened WordBits
  import opened DataBits
  import Flags

  // ---- bitfields -----------------------------------------------------------------------------

  /** The lowest bit a move puts its field at, and the field's width. */
  function PlaceOf(size: nat, r: nat, s: nat): nat
    requires Move(size, r, s)
  {
    if s >= r then 0 else size - r
  }

  function WidthOf(r: nat, s: nat): nat { if s >= r then s - r + 1 else s + 1 }

  /** The field a move takes from a number: bits s..r, or the s + 1 low bits. */
  function FieldIn(a: nat, r: nat, s: nat): nat {
    if s >= r then a / Pow2(r) % Pow2(s - r + 1) else a % Pow2(s + 1)
  }

  /** The field zero-extended, in its place. */
  function MeantUnsigned(size: nat, a: nat, r: nat, s: nat): nat
    requires Move(size, r, s)
  {
    Pow2(PlaceOf(size, r, s)) * FieldIn(a, r, s)
  }

  /** The field sign-extended from its top bit, bit s of the source, in its place. */
  function MeantSigned(size: nat, a: nat, r: nat, s: nat): nat
    requires Move(size, r, s)
  {
    InPlace(Pow2(PlaceOf(size, r, s)), FieldIn(a, r, s), Pow2(WidthOf(r, s)), Pow2(size), a / Pow2(s) % 2 == 1)
  }

  /** A field of w values as a two's complement number, times p, modulo m. */
  function InPlace(p: nat, f: nat, w: nat, m: nat, negative: bool): nat
    requires m > 0
  {
    p * (if negative then f - w else f) % m
  }

  /** The number c with its w bits from lo on replaced by f. */
  function Inserted(size: nat, c: nat, lo: nat, w: nat, f: nat): nat
    requires lo + w <= size
  {
    c % Pow2(lo) + Pow2(lo) * f + Pow2(lo + w) * (c / Pow2(lo + w) % Pow2(size - lo - w))
  }

  /** The number c with the field of a move of a inserted in its place. */
  function MeantInto(size: nat, c: nat, a: nat, r: nat, s: nat): nat
    requires Move(size, r, s)
  {
    Inserted(size, c, PlaceOf(size, r, s), WidthOf(r, s), FieldIn(a, r, s))
  }

  lemma FieldAgrees(size: nat, a: Word, r: nat, s: nat)
    requires Move(size, r, s)
    ensures FieldValue(size, BitsOf(a), r, s) == FieldIn(a, r, s)
  {
    WordBack(a);
  }

  lemma UnsignedMeans(size: nat, a: Word, r: nat, s: nat)
    requires Move(size, r, s)
    ensures WordOf(FieldUnsigned(size, BitsOf(a), WMask(size, r, s), TMask(size, r, s), r))
      == MeantUnsigned(size, a, r, s)
  {
    SameUnsigned(size, BitsOf(a), r, s);
    UbfmValue(size, BitsOf(a), r, s);
    FieldAgrees(size, a, r, s);
  }

  lemma SameUnsigned(size: nat, a: Bits, r: nat, s: nat)
    requires Move(size, r, s)
    ensures FieldUnsigned(size, a, WMask(size, r, s), TMask(size, r, s), r) == Ubfm(size, a, r, s)
  {
  }

  lemma SameSigned(size: nat, a: Bits, r: nat, s: nat)
    requires Move(size, r, s)
    ensures FieldSigned(size, a, WMask(size, r, s), TMask(size, r, s), r, s) == Sbfm(size, a, r, s)
  {
  }

  lemma SameInserted(size: nat, c: Bits, a: Bits, r: nat, s: nat)
    requires Move(size, r, s)
    ensures FieldInserted(size, c, a, WMask(size, r, s), TMask(size, r, s), r) == Bfm(size, c, a, r, s)
  {
  }

  lemma SignedMeans(size: nat, a: Word, r: nat, s: nat)
    requires Move(size, r, s)
    ensures WordOf(FieldSigned(size, BitsOf(a), WMask(size, r, s), TMask(size, r, s), r, s))
      == MeantSigned(size, a, r, s)
  {
    SameSigned(size, BitsOf(a), r, s);
    LowBitAt(a, 64, s);
    SbfmFits(size, BitsOf(a), r, s);
    SbfmNumber(size, a, r, s);
    SignedIs(Val(Sbfm(size, BitsOf(a), r, s)), Pow2(PlaceOf(size, r, s)), FieldIn(a, r, s), Pow2(WidthOf(r, s)),
      Pow2(size), BitsOf(a)[s]);
  }

  lemma SbfmNumber(size: nat, a: Word, r: nat, s: nat)
    requires Move(size, r, s)
    ensures var p := Pow2(PlaceOf(size, r, s));
      Val(Sbfm(size, BitsOf(a), r, s))
        == p * FieldIn(a, r, s) + if BitsOf(a)[s] then Pow2(size) - p * Pow2(WidthOf(r, s)) else 0
  {
    SbfmValue(size, BitsOf(a), r, s);
    FieldAgrees(size, a, r, s);
  }

  lemma SbfmFits(size: nat, src: Bits, r: nat, s: nat)
    requires Move(size, r, s)
    ensures Val(Sbfm(size, src, r, s)) < Pow2(size)
  {
    var b := Sbfm(size, src, r, s);
    LowIs(size, b);
    assert Low(size, b) == b;
  }

  lemma SignedIs(v: nat, p: nat, f: nat, w: nat, m: nat, top: bool)
    requires v == p * f + if top then m - p * w else 0
    ensures v < m ==> v == InPlace(p, f, w, m, top)
  {
    if v < m {
      assert p * (f - w) == p * f - p * w;
      DivModUnique(if top then p * (f - w) else p * f, m, if top then -1 else 0, v);
    }
  }

  lemma InsertedMeans(size: nat, c: Word, a: Word, r: nat, s: nat)
    requires Move(size, r, s)
    ensures WordOf(FieldInserted(size, BitsOf(c), BitsOf(a), WMask(size, r, s), TMask(size, r, s), r))
      == MeantInto(size, c, a, r, s)
  {
    SameInserted(size, BitsOf(c), BitsOf(a), r, s);
    BfmNumber(size, BitsOf(c), BitsOf(a), r, s);
    FieldAgrees(size, a, r, s);
    WordBack(c);
  }

  lemma BfmNumber(size: nat, c: Bits, a: Bits, r: nat, s: nat)
    requires Move(size, r, s)
    ensures Val(Bfm(size, c, a, r, s))
      == Inserted(size, Val(c), PlaceOf(size, r, s), WidthOf(r, s), FieldValue(size, a, r, s))
  {
    BfmAt(size, c, a, r, s, PlaceOf(size, r, s), WidthOf(r, s));
  }

  lemma BfmAt(size: nat, c: Bits, a: Bits, r: nat, s: nat, lo: nat, w: nat)
    requires Move(size, r, s) && lo == Place(size, r, s).0 && w == Place(size, r, s).1
    ensures Val(Bfm(size, c, a, r, s)) == Inserted(size, Val(c), lo, w, FieldValue(size, a, r, s))
  {
    BfmValue(size, c, a, r, s);
  }

  /** Sixteen bits of a number kept apart, and sixteen others put there. */
  lemma KeepMeans(size: nat, a: Word, f: nat, lo: nat, imm: Word, mask: Word)
    requires (size == 32 || size == 64) && lo + 16 <= size && f < 0x1_0000
    requires BitsOf(imm) == Shl(BitsOf(f), lo) && BitsOf(mask) == Not(Shl(Ones(16), lo))
    ensures OrW(AndW(a, mask), imm) % Pow2(size) == Inserted(size, a, lo, 16, f)
  {
    var out := Or(And(BitsOf(a), BitsOf(mask)), BitsOf(imm));
    BitsBack(And(BitsOf(a), BitsOf(mask)));
    LowIs(size, out);
    KeptBits(size, BitsOf(a), f, lo, out);
    KeptNumber(size, BitsOf(a), f, lo);
    WordBack(a);
  }

  lemma KeptNumber(size: nat, b: Bits, f: nat, lo: nat)
    requires size <= 64 && lo + 16 <= size && f < 0x1_0000
    ensures Val(b[..lo] + LowBits(f, 16) + b[lo + 16..size] + Fill(false, 64 - size))
      == Inserted(size, Val(b), lo, 16, f)
  {
    ValAbove(b[..lo] + LowBits(f, 16) + b[lo + 16..size], 64 - size);
    ValThree(b, LowBits(f, 16), lo, size);
    ValLow(f, 16);
    Pow16();
    DivModUnique(f, 0x1_0000, 0, f);
  }

  lemma Pow16()
    ensures Pow2(16) == 0x1_0000
  {
    assert Pow2(8) == 0x100;
    Pow2Sum(8, 8);
  }

  lemma KeptBits(size: nat, b: Bits, f: nat, lo: nat, out: Bits)
    requires (size == 32 || size == 64) && lo + 16 <= size && f < 0x1_0000
    requires out == Or(And(b, Not(Shl(Ones(16), lo))), Shl(BitsOf(f), lo))
    ensures Low(size, out) == b[..lo] + LowBits(f, 16) + b[lo + 16..size] + Fill(false, 64 - size)
  {
    var want := b[..lo] + LowBits(f, 16) + b[lo + 16..size] + Fill(false, 64 - size);
    forall j | 0 <= j < 64 ensures Low(size, out)[j] == want[j] {
      InsertedAt(size, b, LowBits(f, 16), lo, j);
      if j >= lo {
        SmallBits(f, j - lo);
      }
    }
  }

  /** Sixteen bits hold a small number. */
  lemma SmallBits(f: nat, k: nat)
    requires f < 0x1_0000 && k < 64
    ensures BitsOf(f)[k] == if k < 16 then LowBits(f, 16)[k] else false
  {
    LowBitAt(f, 64, k);
    if k < 16 {
      LowBitAt(f, 16, k);
    } else {
      Pow16();
      Pow2Mono(16, k);
      DivModUnique(f, Pow2(k), 0, f);
    }
  }

  // ---- extraction ------------------------------------------------------------------------------

  /** Bits k and up of the pair of registers a:b. */
  function MeantExtract(m: nat, a: nat, b: nat, k: nat): nat
    requires m > 0
  {
    (b % m + m * (a % m)) / Pow2(k) % m
  }

  lemma ExtractMeans(sf: bool, a: Word, b: Word, k: nat)
    requires k < BitWidth(sf)
    ensures WordOf(Extracted(BitWidth(sf), BitsOf(a), BitsOf(b), k)) == MeantExtract(Width(sf), a, b, k)
  {
    var size, x, y := BitWidth(sf), BitsOf(a), BitsOf(b);
    Widths(sf);
    WordBack(a);
    WordBack(b);
    ExtractOf(size, x, y, k);
  }

  lemma ExtractOf(size: nat, x: Bits, y: Bits, k: nat)
    requires k < size <= 64
    ensures Val(Extracted(size, x, y, k)) == MeantExtract(Pow2(size), Val(x), Val(y), k)
  {
    PairIs(size, x, y);
    ExtractNumber(size, x, y, k);
  }

  lemma PairIs(size: nat, x: Bits, y: Bits)
    requires size <= 64
    ensures Val(y[..size] + x[..size]) == Val(y) % Pow2(size) + Pow2(size) * (Val(x) % Pow2(size))
  {
    ValSplit(x, size);
    ValSplit(y, size);
    ValConcat(y[..size], x[..size]);
  }

  lemma ExtractNumber(size: nat, x: Bits, y: Bits, k: nat)
    requires k < size <= 64
    ensures Val(Extracted(size, x, y, k)) == Val(y[..size] + x[..size]) / Pow2(k) % Pow2(size)
  {
    var pair := y[..size] + x[..size];
    ExtractBits(size, x, y, k);
    ValAbove(pair[k..k + size], 64 - size);
    ValSlice(pair, k, size);
  }

  lemma ExtractBits(size: nat, x: Bits, y: Bits, k: nat)
    requires k < size <= 64
    ensures Extracted(size, x, y, k) == (y[..size] + x[..size])[k..k + size] + Fill(false, 64 - size)
  {
  }

  // ---- bytes ---------------------------------------------------------------------------------------

  /** Putting halves or neighbouring bytes together reverses the bytes of every unit. */
  lemma BytesMean(sf: bool, u: Unit, a: Bits)
    ensures FlipUnits(sf, u, a) == BytesFlipped(u, Low(BitWidth(sf), a))
  {
    if u == 2 {
      PairsMean(Low(BitWidth(sf), a));
    } else if u == 4 && sf {
      HalvesMean(a);
      assert Low(64, a) == a;
    }
  }

  lemma PairsMean(v: Bits)
    ensures Or(Shl(And(v, EvenBytes()), 8), And(Shr(v, 8), EvenBytes())) == BytesFlipped(2, v)
  {
    var got, want := Or(Shl(And(v, EvenBytes()), 8), And(Shr(v, 8), EvenBytes())), BytesFlipped(2, v);
    forall j | 0 <= j < 64 ensures got[j] == want[j] {
      if j / 8 % 2 == 0 {
        assert want[j] == v[j + 8];
      } else {
        assert want[j] == v[j - 8];
      }
    }
  }

  lemma HalvesMean(a: Bits)
    ensures Or(Shl(BytesFlipped(8, a), 32), Shr(BytesFlipped(8, a), 32)) == BytesFlipped(4, a)
  {
    var v := BytesFlipped(8, a);
    var got, want := Or(Shl(v, 32), Shr(v, 32)), BytesFlipped(4, a);
    forall j | 0 <= j < 64 ensures got[j] == want[j] {
      if j < 32 {
        assert want[j] == v[j + 32];
      } else {
        assert want[j] == v[j - 32];
      }
    }
  }

  // ---- leading bits --------------------------------------------------------------------------------

  /** How many bits below position k are clear, from the top down. */
  function ClearBelow(b: seq<bool>, k: nat): (n: nat)
    requires k <= |b|
    ensures n <= k
  {
    if k == 0 || b[k - 1] then 0 else 1 + ClearBelow(b, k - 1)
  }

  /** How many bits below position k equal the bit above them, from the top down. */
  function SameBelow(b: seq<bool>, k: nat): (n: nat)
    requires k < |b|
    ensures n <= k
  {
    if k == 0 || b[k - 1] != b[k] then 0 else 1 + SameBelow(b, k - 1)
  }

  lemma {:induction false} ClearIs(b: seq<bool>, k: nat)
    requires k <= |b|
    ensures ClearBelow(b, k) == k - 1 - HighBit(Val(b[..k]))
  {
    if k > 0 {
      TopDigit(b, k);
      if b[k - 1] {
        HighIs(Val(b[..k]), k - 1);
      } else {
        ClearIs(b, k - 1);
      }
    }
  }

  lemma TopDigit(b: seq<bool>, k: nat)
    requires 0 < k <= |b|
    ensures Val(b[..k]) == Val(b[..k - 1]) + if b[k - 1] then Pow2(k - 1) else 0
  {
    assert b[..k] == b[..k - 1] + [b[k - 1]];
    ValConcat(b[..k - 1], [b[k - 1]]);
    assert Val([b[k - 1]]) == if b[k - 1] then 1 else 0;
  }

  lemma HighIs(x: nat, k: nat)
    requires Pow2(k) <= x < 2 * Pow2(k)
    ensures HighBit(x) == k
  {
    if HighBit(x) < k {
      Pow2Mono(HighBit(x) + 1, k);
    } else if HighBit(x) > k {
      Pow2Mono(k + 1, HighBit(x));
    }
  }

  lemma ZerosMean(sf: bool, a: Word)
    ensures ZerosAbove(sf, a % Width(sf)) == ClearBelow(BitsOf(a), BitWidth(sf))
  {
    Widths(sf);
    WordBack(a);
    ValSplit(BitsOf(a), BitWidth(sf));
    ClearIs(BitsOf(a), BitWidth(sf));
  }

  lemma SignsMean(sf: bool, a: Bits)
    ensures SignsAbove(sf, a) == SameBelow(a, BitWidth(sf) - 1)
  {
    var n, b := BitWidth(sf) - 1, Changes(BitWidth(sf), a);
    ChangesFit(sf, a);
    assert b == b[..n] + Fill(false, 64 - n);
    ValAbove(b[..n], 64 - n);
    ClearIs(b, n);
    SameClear(sf, a, b, n);
  }

  lemma {:induction false} SameClear(sf: bool, a: Bits, b: Bits, k: nat)
    requires b == Changes(BitWidth(sf), a) && k < BitWidth(sf)
    ensures ClearBelow(b, k) == SameBelow(a, k)
  {
    if k > 0 {
      assert b[k - 1] == (a[k - 1] != a[k]);
      SameClear(sf, a, b, k - 1);
    }
  }

  // ---- products ----------------------------------------------------------------------------------------

  /** The upper half of the exact product, signed or unsigned. */
  function MeantHigh(signed: bool, a: Word, b: Word): Word {
    (if signed then Flags.Int(B64, a) * Flags.Int(B64, b) / B64 else a * b / B64) % B64
  }

  lemma HighMeans(signed: bool, a: Word, b: Word)
    ensures High(signed, a, b) == MeantHigh(signed, a, b)
  {
    ProductFits(a, b);
    if signed {
      var p, q := (if Flags.Top(B64, a) then 1 else 0), if Flags.Top(B64, b) then 1 else 0;
      SignedProduct(a, b, p, q);
      UpperHalf(a * b, q * a + p * b, p * q);
    }
  }

  lemma SignedProduct(a: int, b: int, p: int, q: int)
    requires p == 0 || p == 1
    requires q == 0 || q == 1
    ensures (a - p * B64) * (b - q * B64) == a * b + B64 * (B64 * (p * q) - (q * a + p * b))
  {
  }

  lemma UpperHalf(x: int, y: int, z: int)
    ensures (x + B64 * (B64 * z - y)) / B64 % B64 == (x / B64 - y) % B64
  {
    var h := x / B64;
    assert (x + B64 * (B64 * z - y)) / B64 == h + B64 * z - y;
    var u := h - y;
    assert (u + B64 * z) % B64 == u % B64;
  }
}
