/** Words as their 64 bits and back, and the bitwise operations on words. */
module WordBits {
  import opened Words
  import opened Bitfield

  // ---- bits of a number -----------------------------------------------------------------

  /** The n low bits of a number, least significant first. */
  function LowBits(w: nat, n: nat): (b: seq<bool>)
    ensures |b| == n
  {
    if n == 0 then [] else [w % 2 == 1] + LowBits(w / 2, n - 1)
  }

  function BitsOf(w: nat): Bits { LowBits(w, 64) }

  lemma Pow64()
    ensures Pow2(32) == B32 && Pow2(64) == B64
  {
    assert Pow2(8) == 256;
    Pow2Sum(8, 8);
    Pow2Sum(16, 16);
    Pow2Sum(32, 32);
  }

  function WordOf(b: Bits): Word {
    Pow64();
    Val(b)
  }

  lemma {:induction false} ValLow(w: nat, n: nat)
    ensures Val(LowBits(w, n)) == w % Pow2(n)
  {
    if n > 0 {
      ValLow(w / 2, n - 1);
      assert LowBits(w, n)[1..] == LowBits(w / 2, n - 1);
      Digit(w, Pow2(n - 1));
    }
  }

  lemma Digit(w: nat, p: nat)
    requires p > 0
    ensures w % (2 * p) == w % 2 + 2 * (w / 2 % p)
  {
    var q, r := w / 2 / p, w / 2 % p;
    assert w / 2 == p * q + r;
    Assoc(2, p, q);
    DivModUnique(w, 2 * p, q, w % 2 + 2 * r);
  }

  lemma {:induction false} LowVal(b: seq<bool>)
    ensures LowBits(Val(b), |b|) == b
  {
    if |b| > 0 {
      var v := Val(b[1..]);
      assert Val(b) % 2 == (if b[0] then 1 else 0) && Val(b) / 2 == v;
      LowVal(b[1..]);
      assert b == [b[0]] + b[1..];
    }
  }

  /** A word is its bits, and bits are their word. */
  lemma WordBack(w: Word)
    ensures WordOf(BitsOf(w)) == w
  {
    Pow64();
    ValLow(w, 64);
    DivModUnique(w, B64, 0, w);
  }

  lemma BitsBack(b: Bits)
    ensures BitsOf(WordOf(b)) == b
  {
    LowVal(b);
  }

  lemma {:induction false} LowBitAt(w: nat, n: nat, k: nat)
    requires k < n
    ensures LowBits(w, n)[k] == (w / Pow2(k) % 2 == 1)
  {
    if k > 0 {
      LowBitAt(w / 2, n - 1, k - 1);
      DivDiv(w, 2, Pow2(k - 1));
    } else {
      assert Pow2(0) == 1;
    }
  }

  // ---- low bits and shifts ------------------------------------------------------------------

  /** Keeping the low bits is the remainder. */
  lemma LowIs(m: nat, b: Bits)
    requires m <= 64
    ensures Val(Low(m, b)) == Val(b) % Pow2(m)
  {
    assert Low(m, b) == b[..m] + Fill(false, 64 - m);
    ValAbove(b[..m], 64 - m);
    ValSplit(b, m);
  }

  /** Shifting left multiplies, modulo 2^64. */
  lemma ShlIs(b: Bits, k: nat)
    requires k <= 64
    ensures Val(Bitfield.Shl(b, k)) == Pow2(k) * (Val(b) % Pow2(64 - k))
  {
    assert Bitfield.Shl(b, k) == Fill(false, k) + b[..64 - k];
    ValBelow(k, b[..64 - k]);
    ValSplit(b, 64 - k);
  }

  // ---- operations on words -------------------------------------------------------------------

  function Xor(a: Bits, b: Bits): Bits { seq(64, j requires 0 <= j < 64 => a[j] != b[j]) }

  function AndW(a: Word, b: Word): Word { WordOf(And(BitsOf(a), BitsOf(b))) }
  function OrW(a: Word, b: Word): Word { WordOf(Or(BitsOf(a), BitsOf(b))) }
  function XorW(a: Word, b: Word): Word { WordOf(Xor(BitsOf(a), BitsOf(b))) }
}
