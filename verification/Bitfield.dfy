/** DecodeBitMasks and the bitfield moves, on words as their 64 bits, least significant first. */
module Bitfield {
  import opened Words

  type Bits = b: seq<bool> | |b| == 64 witness seq<bool>(64, _ => false)

  // ---- operations on words --------------------------------------------------------------

  function And(a: Bits, b: Bits): Bits { seq(64, j requires 0 <= j < 64 => a[j] && b[j]) }
  function Or(a: Bits, b: Bits): Bits { seq(64, j requires 0 <= j < 64 => a[j] || b[j]) }
  function Not(a: Bits): Bits { seq(64, j requires 0 <= j < 64 => !a[j]) }
  function Shl(a: Bits, k: nat): Bits { seq(64, j requires 0 <= j < 64 => k <= j && a[j - k]) }
  function Shr(a: Bits, k: nat): Bits { seq(64, j requires 0 <= j < 64 => j + k < 64 && a[j + k]) }
  function Zero(): Bits { seq(64, j requires 0 <= j < 64 => false) }

  /** 1 << n, less one: the n low bits. */
  function Ones(n: nat): Bits { seq(64, j requires 0 <= j < 64 => j < n) }

  /** The low m bits, the rest zero. */
  function Low(m: nat, a: Bits): Bits { And(a, Ones(m)) }

  /** The low m bits rotated right by r, the rest zero. */
  function Rotate(m: nat, a: Bits, r: nat): Bits
    requires 0 < m <= 64
  {
    seq(64, j requires 0 <= j < 64 => j < m && a[(j + r) % m])
  }

  /** The low m bits shifted right arithmetically by k, the rest zero. */
  function Asr(m: nat, a: Bits, k: nat): Bits
    requires 0 < m <= 64
  {
    seq(64, j requires 0 <= j < 64 => j < m && a[if j + k < m then j + k else m - 1])
  }

  // ---- DecodeBitMasks -------------------------------------------------------------------

  /** The position of the highest set bit, or -1. */
  function HighBit(n: nat): (l: int)
    ensures l == -1 <==> n == 0
    ensures n > 0 ==> l >= 0 && Pow2(l) <= n < 2 * Pow2(l)
  {
    if n == 0 then -1 else if n == 1 then 0 else 1 + HighBit(n / 2)
  }

  /** Copies of the low esize bits of v, filling the low m bits. */
  function Replicated(v: Bits, esize: nat, m: nat): Bits
    requires 0 < esize <= 64
  {
    seq(64, j requires 0 <= j < 64 => j < m && v[j % esize])
  }

  method Replicate(v: Bits, esize: nat, m: nat) returns (out: Bits)
    requires 0 < esize <= 64 && m <= 64 && m % esize == 0 && forall k :: esize <= k < 64 ==> !v[k]
    ensures out == Replicated(v, esize, m)
  {
    out := Zero();
    var i := 0;
    ghost var n := 0;
    while i < m
      invariant i == Times(n, esize) <= m && out == Replicated(v, esize, i)
      decreases m - i
    {
      NextFits(n, esize, m);
      Chunk(v, esize, i, n);
      out := Or(out, Shl(v, i));
      i := i + esize;
      n := n + 1;
    }
    if m == 32 {
      assert And(out, Ones(32)) == out;
      out := And(out, Ones(32));
    }
  }

  lemma NextFits(n: nat, d: nat, m: nat)
    requires d > 0 && Times(n, d) < m && m % d == 0
    ensures Times(n, d) + d <= m
  {
    TimesIs(n, d);
    var q := m / d;
    if n >= q {
      MulMono(d, q, n);
    } else {
      MulMono(d, n + 1, q);
      assert d * (n + 1) == d * n + d;
    }
  }

  lemma Chunk(v: Bits, esize: nat, i: nat, n: nat)
    requires 0 < esize <= 64 && i == Times(n, esize) && forall k :: esize <= k < 64 ==> !v[k]
    ensures Or(Replicated(v, esize, i), Shl(v, i)) == Replicated(v, esize, i + esize)
  {
    TimesIs(n, esize);
    var a, b := Or(Replicated(v, esize, i), Shl(v, i)), Replicated(v, esize, i + esize);
    forall j | 0 <= j < 64 ensures a[j] == b[j] {
      if i <= j < i + esize {
        DivModUnique(j, esize, n, j - i);
      }
    }
  }

  /** The s + 1 low bits, rotated right by r within e bits. */
  function Element(e: nat, s: nat, r: nat): Bits
    requires r < e
  {
    if r != 0 then And(Or(Shr(Ones(s + 1), r), Shl(Ones(s + 1), e - r)), Ones(e)) else Ones(s + 1)
  }

  /** The masks of a logical immediate or a bitfield move, as they are computed; None when the encoding is reserved. */
  function Masks(immN: nat, imms: nat, immr: nat, immediate: bool, m: nat): Option<(Bits, Bits)>
    requires immN <= 1 && imms < 64 && immr < 64 && (m == 32 || m == 64)
  {
    var l := HighBit(immN * 64 + (63 - imms));
    if l < 1 || Pow2(l) > m then None
    else
      var esize := Pow2(l);
      if immediate && imms % esize == esize - 1 then None
      else
        var s, r := imms % esize, immr % esize;
        var d := (s - r) % esize;
        Some((Replicated(Element(esize, s, r), esize, m), Replicated(Ones(d + 1), esize, m)))
  }

  method DecodeBitMasks(immN: nat, imms: nat, immr: nat, immediate: bool, m: nat) returns (r: Option<(Bits, Bits)>)
    requires immN <= 1 && imms < 64 && immr < 64 && (m == 32 || m == 64)
    ensures r == Masks(immN, imms, immr, immediate, m)
  {
    var l := HighBit(immN * 64 + (63 - imms));
    if l < 1 || Pow2(l) > m {
      return None;
    }
    var esize := Pow2(l);
    if immediate && imms % esize == esize - 1 {
      return None;
    }
    SizeDivides(l, m);
    var s, rot := imms % esize, immr % esize;
    var wmask, tmask := ElementMasks(esize, s, rot, (s - rot) % esize, m);
    return Some((wmask, tmask));
  }

  method ElementMasks(esize: nat, s: nat, rot: nat, d: nat, m: nat) returns (wmask: Bits, tmask: Bits)
    requires s < esize <= 64 && rot < esize && d < esize && m <= 64 && m % esize == 0
    ensures wmask == Replicated(Element(esize, s, rot), esize, m) && tmask == Replicated(Ones(d + 1), esize, m)
  {
    var welem, telem := Ones(s + 1), Ones(d + 1);
    if rot != 0 {
      welem := And(Or(Shr(welem, rot), Shl(welem, esize - rot)), Ones(esize));
    }
    ElementFits(esize, s, rot);
    ElementFits(esize, d, 0);
    wmask := Replicate(welem, esize, m);
    tmask := Replicate(telem, esize, m);
  }

  lemma ElementFits(e: nat, s: nat, r: nat)
    requires r < e && s < e
    ensures forall k :: e <= k < 64 ==> !Element(e, s, r)[k]
  {
  }

  lemma SizeDivides(l: nat, m: nat)
    requires (m == 32 || m == 64) && Pow2(l) <= m
    ensures m % Pow2(l) == 0 && Pow2(l) <= 64
  {
    assert Pow2(6) == 64;
    if l > 6 {
      Pow2Mono(7, l);
    }
    assert l == 0 || l == 1 || l == 2 || l == 3 || l == 4 || l == 5 || l == 6;
    assert Pow2(1) == 2 && Pow2(2) == 4 && Pow2(3) == 8 && Pow2(4) == 16 && Pow2(5) == 32;
  }

  /** Bit j of a mask is in a run of imms % e + 1 ones, rotated right by immr, in an element of e bits. */
  predicate InElement(e: nat, imms: nat, immr: nat, j: nat)
    requires e > 0
  {
    (j % e + immr % e) % e <= imms % e
  }

  /** Bit j of a mask is in a run of (imms - immr) % e + 1 ones in an element of e bits. */
  predicate InTail(e: nat, imms: nat, immr: nat, j: nat)
    requires e > 0
  {
    j % e <= (imms % e - immr % e) % e
  }

  lemma ElementAt(e: nat, imms: nat, immr: nat, m: nat, j: nat)
    requires 0 < e <= 64 && j < 64
    ensures Replicated(Element(e, imms % e, immr % e), e, m)[j] <==> j < m && InElement(e, imms, immr, j)
    ensures Replicated(Ones((imms % e - immr % e) % e + 1), e, m)[j] <==> j < m && InTail(e, imms, immr, j)
  {
    RotatedOnes(e, imms % e, immr % e, j % e);
  }

  /** What the masks are: in each element of e = 2^l bits, wmask has the s + 1 low bits rotated right by r, and
      tmask the d + 1 low bits; and an encoding is reserved exactly when it selects no size, a size over m, or an
      all-ones element. */
  lemma MasksMean(immN: nat, imms: nat, immr: nat, immediate: bool, m: nat, l: int, e: nat, j: nat)
    requires immN <= 1 && imms < 64 && immr < 64 && (m == 32 || m == 64) && j < 64
    requires l == HighBit(immN * 64 + (63 - imms)) && e == Pow2(if l < 0 then 0 else l)
    ensures Masks(immN, imms, immr, immediate, m).None? <==> l < 1 || e > m || (immediate && imms % e == e - 1)
    ensures match Masks(immN, imms, immr, immediate, m)
      case None => true
      case Some((w, t)) =>
        (w[j] <==> j < m && InElement(e, imms, immr, j))
          && (t[j] <==> j < m && InTail(e, imms, immr, j))
  {
    if l >= 1 && e <= m {
      SizeDivides(l, m);
      ElementAt(e, imms, immr, m, j);
    }
  }

  lemma RotatedOnes(e: nat, s: nat, r: nat, k: nat)
    requires 0 < e <= 64 && s < e && r < e && k < e
    ensures Element(e, s, r)[k] <==> (k + r) % e <= s
  {
    if k + r < e {
      DivModUnique(k + r, e, 0, k + r);
    } else {
      DivModUnique(k + r, e, 1, k + r - e);
    }
  }

  // ---- bitfield moves ---------------------------------------------------------------------

  /** The encodings of a bitfield move of m bits. */
  predicate Move(m: nat, r: nat, s: nat) {
    (m == 32 || m == 64) && r < m && s < m
  }

  /** The masks of a move. */
  function WMask(m: nat, r: nat, s: nat): Bits
    requires Move(m, r, s)
  {
    Replicated(Element(m, s, r), m, m)
  }

  function TMask(m: nat, r: nat, s: nat): Bits
    requires Move(m, r, s)
  {
    Replicated(Ones((s - r) % m + 1), m, m)
  }

  lemma MoveSize(m: nat, s: nat)
    requires (m == 32 || m == 64) && s < m
    ensures var l := HighBit((if m == 64 then 1 else 0) * 64 + (63 - s)); l >= 1 && Pow2(l) == m
  {
    assert Pow2(4) == 16 && Pow2(5) == 32 && Pow2(6) == 64 && Pow2(7) == 128;
    var v := (if m == 64 then 1 else 0) * 64 + (63 - s);
    var l := HighBit(v);
    assert if m == 64 then 64 <= v < 128 else 32 <= v < 64;
    if l < 5 { Pow2Mono(l, 4); } else if l > 6 { Pow2Mono(7, l); }
  }

  /** They are what decoding gives for the encodings of a move, 64-bit with N set and 32-bit with N clear. */
  lemma MoveMasks(m: nat, r: nat, s: nat)
    requires Move(m, r, s)
    ensures Masks(if m == 64 then 1 else 0, s, r, false, m) == Some((WMask(m, r, s), TMask(m, r, s)))
  {
    var n := if m == 64 then 1 else 0;
    MoveSize(m, s);
    MasksWhole(n, m, r, s, HighBit(n * 64 + (63 - s)));
  }

  lemma MasksWhole(n: nat, m: nat, r: nat, s: nat, l: int)
    requires Move(m, r, s) && n <= 1 && l == HighBit(n * 64 + (63 - s)) >= 1 && Pow2(l) == m
    ensures Masks(n, s, r, false, m) == Some((WMask(m, r, s), TMask(m, r, s)))
  {
    Small(s, m);
    Small(r, m);
    MasksAre(n, s, r, m, l, m, s, r);
  }

  lemma MasksAre(immN: nat, imms: nat, immr: nat, m: nat, l: int, e: nat, s: nat, r: nat)
    requires immN <= 1 && imms < 64 && immr < 64 && (m == 32 || m == 64)
    requires l == HighBit(immN * 64 + (63 - imms)) >= 1 && e == Pow2(l) <= m
    requires s == imms % e && r == immr % e
    ensures Masks(immN, imms, immr, false, m)
      == Some((Replicated(Element(e, s, r), e, m), Replicated(Ones((s - r) % e + 1), e, m)))
  {
  }

  function Ubfm(m: nat, src: Bits, r: nat, s: nat): Bits
    requires Move(m, r, s)
  {
    And(And(Rotate(m, src, r), WMask(m, r, s)), TMask(m, r, s))
  }

  function Sbfm(m: nat, src: Bits, r: nat, s: nat): Bits
    requires Move(m, r, s)
  {
    var bot := And(Rotate(m, src, r), WMask(m, r, s));
    var top := Asr(m, Shl(src, m - 1 - s), m - 1);
    Low(m, Or(And(top, Not(TMask(m, r, s))), And(bot, TMask(m, r, s))))
  }

  function Bfm(m: nat, dst: Bits, src: Bits, r: nat, s: nat): Bits
    requires Move(m, r, s)
  {
    var d := Low(m, dst);
    var bot := Or(And(d, Not(WMask(m, r, s))), And(Rotate(m, src, r), WMask(m, r, s)));
    Low(m, Or(And(d, Not(TMask(m, r, s))), And(bot, TMask(m, r, s))))
  }

  lemma MaskBits(m: nat, r: nat, s: nat, j: nat)
    requires Move(m, r, s) && j < 64
    ensures WMask(m, r, s)[j] <==> j < m && (j + r) % m <= s
    ensures TMask(m, r, s)[j] <==> j < m && j <= (s - r) % m
  {
    if j < m {
      Small(j, m);
      RotatedOnes(m, s, r, j);
    }
  }

  lemma Small(x: nat, m: nat)
    requires m > 0
    ensures x < m ==> x % m == x
  {
    if x < m {
      DivModUnique(x, m, 0, x);
    }
  }

  /** Where a move puts its field: lowest bit, width, and the source bit that lands there. */
  function Place(m: nat, r: nat, s: nat): (nat, nat, nat)
    requires Move(m, r, s)
  {
    if s >= r then (0, s - r + 1, r) else (m - r, s + 1, 0)
  }

  predicate Inside(m: nat, r: nat, s: nat, j: nat)
    requires Move(m, r, s)
  {
    var (lo, w, from) := Place(m, r, s);
    lo <= j < lo + w
  }

  lemma FieldBits(m: nat, r: nat, s: nat, j: nat)
    requires Move(m, r, s) && j < m
    ensures var (lo, w, from) := Place(m, r, s);
      (Inside(m, r, s, j) <==> (j + r) % m <= s && j <= (s - r) % m)
        && (Inside(m, r, s, j) ==> (j + r) % m == from + (j - lo))
    ensures var (lo, w, from) := Place(m, r, s);
      j > (s - r) % m <==> j >= lo + w
  {
    if j + r < m { DivModUnique(j + r, m, 0, j + r); } else { DivModUnique(j + r, m, 1, j + r - m); }
    if s >= r { DivModUnique(s - r, m, 0, s - r); } else { DivModUnique(s - r, m, -1, s - r + m); }
  }

  /** UBFM: inside the field the source bit that belongs there, zero elsewhere. */
  lemma UbfmBits(m: nat, src: Bits, r: nat, s: nat, j: nat)
    requires Move(m, r, s) && j < 64
    ensures var (lo, w, from) := Place(m, r, s);
      Ubfm(m, src, r, s)[j] <==> Inside(m, r, s, j) && src[from + (j - lo)]
  {
    MaskBits(m, r, s, j);
    if j < m {
      FieldBits(m, r, s, j);
    }
  }

  /** SBFM: as UBFM below and inside the field, and the field's top bit above it. */
  lemma SbfmBits(m: nat, src: Bits, r: nat, s: nat, j: nat)
    requires Move(m, r, s) && j < 64
    ensures var (lo, w, from) := Place(m, r, s);
      Sbfm(m, src, r, s)[j] <==> j < m && if Inside(m, r, s, j) then src[from + (j - lo)] else j >= lo && src[s]
  {
    MaskBits(m, r, s, j);
    SbfmMasked(m, src, r, s, j);
    if j < m {
      FieldBits(m, r, s, j);
    }
  }

  lemma SbfmMasked(m: nat, src: Bits, r: nat, s: nat, j: nat)
    requires Move(m, r, s) && j < 64
    ensures var w, t := WMask(m, r, s)[j], TMask(m, r, s)[j];
      Sbfm(m, src, r, s)[j] <==> j < m && if t then w && src[(j + r) % m] else src[s]
  {
    var w, t := WMask(m, r, s), TMask(m, r, s);
    var bot, top := And(Rotate(m, src, r), w), Asr(m, Shl(src, m - 1 - s), m - 1);
    Blended(m, top, bot, t, j);
    if j < m {
      SignFills(m, src, s, j);
      RotatedAt(m, src, r, w, j);
    }
  }

  lemma Blended(m: nat, a: Bits, b: Bits, t: Bits, j: nat)
    requires j < 64
    ensures Low(m, Or(And(a, Not(t)), And(b, t)))[j] <==> j < m && if t[j] then b[j] else a[j]
  {
  }

  lemma RotatedAt(m: nat, src: Bits, r: nat, w: Bits, j: nat)
    requires j < m <= 64
    ensures And(Rotate(m, src, r), w)[j] <==> w[j] && src[(j + r) % m]
  {
  }

  /** Shifting bit s to the top and back down with sign copies it everywhere. */
  lemma SignFills(m: nat, src: Bits, s: nat, j: nat)
    requires (m == 32 || m == 64) && s < m && j < m
    ensures Asr(m, Shl(src, m - 1 - s), m - 1)[j] == src[s]
  {
    assert Shl(src, m - 1 - s)[m - 1] == src[s];
  }

  /** BFM: the destination, with the field inserted. */
  lemma BfmBits(m: nat, dst: Bits, src: Bits, r: nat, s: nat, j: nat)
    requires Move(m, r, s) && j < 64
    ensures var (lo, w, from) := Place(m, r, s);
      Bfm(m, dst, src, r, s)[j] <==> j < m && if Inside(m, r, s, j) then src[from + (j - lo)] else dst[j]
  {
    MaskBits(m, r, s, j);
    BfmMasked(m, dst, src, r, s, j);
    if j < m {
      FieldBits(m, r, s, j);
    }
  }

  lemma BfmMasked(m: nat, dst: Bits, src: Bits, r: nat, s: nat, j: nat)
    requires Move(m, r, s) && j < 64
    ensures var w, t := WMask(m, r, s)[j], TMask(m, r, s)[j];
      Bfm(m, dst, src, r, s)[j] <==> j < m && if w && t then src[(j + r) % m] else dst[j]
  {
    var d, w, t := Low(m, dst), WMask(m, r, s), TMask(m, r, s);
    var bot := Or(And(d, Not(w)), And(Rotate(m, src, r), w));
    Blended(m, d, bot, t, j);
    if j < m {
      RotatedAt(m, src, r, w, j);
      assert bot[j] == if w[j] then src[(j + r) % m] else dst[j];
    }
  }

  // ---- as numbers ------------------------------------------------------------------------------

  function Val(b: seq<bool>): (v: nat)
    ensures v < Pow2(|b|)
  {
    if |b| == 0 then 0 else (if b[0] then 1 else 0) + 2 * Val(b[1..])
  }

  function Fill(x: bool, n: nat): (b: seq<bool>)
    ensures |b| == n && forall k :: 0 <= k < n ==> b[k] == x
  {
    seq(n, k requires 0 <= k < n => x)
  }

  lemma {:induction false} ValConcat(a: seq<bool>, b: seq<bool>)
    ensures Val(a + b) == Val(a) + Pow2(|a|) * Val(b)
  {
    if |a| == 0 {
      assert a + b == b;
    } else {
      ValConcat(a[1..], b);
      ConcatStep(a, b, Pow2(|a| - 1), Val(b));
    }
  }

  lemma ConcatStep(a: seq<bool>, b: seq<bool>, p: nat, v: nat)
    requires |a| > 0 && Val(a[1..] + b) == Val(a[1..]) + p * v
    ensures Val(a + b) == Val(a) + 2 * p * v
  {
    var c := a + b;
    assert c[1..] == a[1..] + b && c[0] == a[0];
    Assoc(2, p, v);
    assert Val(c) == (if c[0] then 1 else 0) + 2 * Val(c[1..]);
  }

  lemma {:induction false} ValFill(x: bool, n: nat)
    ensures Val(Fill(x, n)) == if x then Pow2(n) - 1 else 0
  {
    if n > 0 {
      ValFill(x, n - 1);
      assert Fill(x, n)[1..] == Fill(x, n - 1);
    }
  }

  /** Dropping the k low bits is dividing by 2^k; keeping them is the remainder. */
  lemma ValSplit(b: seq<bool>, k: nat)
    requires k <= |b|
    ensures Val(b[k..]) == Val(b) / Pow2(k) && Val(b[..k]) == Val(b) % Pow2(k)
  {
    assert b == b[..k] + b[k..];
    ValConcat(b[..k], b[k..]);
    Divided(Val(b), Pow2(k), Val(b[k..]), Val(b[..k]));
  }

  lemma Divided(x: nat, d: nat, q: nat, r: nat)
    requires r < d && x == r + d * q
    ensures q == x / d && r == x % d
  {
    DivModUnique(x, d, q, r);
  }

  /** Bits k to k + w of a word are a quotient's remainder. */
  lemma ValSlice(b: seq<bool>, k: nat, w: nat)
    requires k + w <= |b|
    ensures Val(b[k..k + w]) == Val(b) / Pow2(k) % Pow2(w)
  {
    var hi := b[k..];
    assert hi[..w] == b[k..k + w];
    assert Val(hi) == Val(b) / Pow2(k) by { ValSplit(b, k); }
    assert Val(hi[..w]) == Val(hi) % Pow2(w) by { ValSplit(hi, w); }
  }

  /** A word of zeros below lo, a field, and copies of x above it. */
  function Laid(lo: nat, field: seq<bool>, x: bool, n: nat): seq<bool> {
    Fill(false, lo) + field + Fill(x, n)
  }

  lemma ValLaid(lo: nat, field: seq<bool>, x: bool, n: nat)
    ensures Val(Laid(lo, field, x, n))
      == Pow2(lo) * Val(field) + if x then Pow2(lo + |field| + n) - Pow2(lo + |field|) else 0
  {
    var below := Fill(false, lo) + field;
    ValConcat(below, Fill(x, n));
    ValBelow(lo, field);
    ValFill(x, n);
    Pow2Sum(|below|, n);
    LessOne(Pow2(|below|), Pow2(n));
  }

  lemma ValBelow(lo: nat, field: seq<bool>)
    ensures Val(Fill(false, lo) + field) == Pow2(lo) * Val(field)
  {
    ValConcat(Fill(false, lo), field);
    ValFill(false, lo);
  }

  lemma LessOne(p: nat, q: nat)
    requires q > 0
    ensures p * (q - 1) == p * q - p && p * 0 == 0
  {
  }

  /** The field a move takes from its source, as a number: bits s..r, or the s + 1 low bits. */
  function FieldValue(m: nat, src: Bits, r: nat, s: nat): nat
    requires Move(m, r, s)
  {
    if s >= r then Val(src) / Pow2(r) % Pow2(s - r + 1) else Val(src) % Pow2(s + 1)
  }

  /** Those bits of the source. */
  function FieldOf(m: nat, src: Bits, r: nat, s: nat): (f: seq<bool>)
    requires Move(m, r, s)
    ensures |f| == Place(m, r, s).1
  {
    if s >= r then src[r..s + 1] else src[..s + 1]
  }

  lemma FieldIs(m: nat, src: Bits, r: nat, s: nat)
    requires Move(m, r, s)
    ensures Val(FieldOf(m, src, r, s)) == FieldValue(m, src, r, s)
  {
    if s >= r {
      ValSlice(src, r, s + 1 - r);
      assert src[r..r + (s + 1 - r)] == src[r..s + 1];
    } else {
      ValSplit(src, s + 1);
    }
  }

  lemma LaidAt(lo: nat, field: seq<bool>, x: bool, n: nat, j: nat)
    requires j < lo + |field| + n
    ensures Laid(lo, field, x, n)[j] == if j < lo then false else if j < lo + |field| then field[j - lo] else x
  {
  }

  lemma FieldAt(m: nat, src: Bits, r: nat, s: nat, k: nat)
    requires Move(m, r, s) && k < Place(m, r, s).1
    ensures FieldOf(m, src, r, s)[k] == src[Place(m, r, s).2 + k]
  {
  }

  lemma UbfmLaid(m: nat, src: Bits, r: nat, s: nat)
    requires Move(m, r, s)
    ensures var (lo, w, from) := Place(m, r, s);
      Ubfm(m, src, r, s) == Laid(lo, FieldOf(m, src, r, s), false, 64 - lo - w)
  {
    var (lo, w, from) := Place(m, r, s);
    var got, want := Ubfm(m, src, r, s), Laid(lo, FieldOf(m, src, r, s), false, 64 - lo - w);
    forall j | 0 <= j < 64 ensures got[j] == want[j] {
      UbfmBits(m, src, r, s, j);
      LaidAt(lo, FieldOf(m, src, r, s), false, 64 - lo - w, j);
      if lo <= j < lo + w { FieldAt(m, src, r, s, j - lo); }
    }
  }

  /** UBFM computes the field, shifted into place. */
  lemma UbfmValue(m: nat, src: Bits, r: nat, s: nat)
    requires Move(m, r, s)
    ensures Val(Ubfm(m, src, r, s)) == Pow2(if s >= r then 0 else m - r) * FieldValue(m, src, r, s)
  {
    var (lo, w, from) := Place(m, r, s);
    FieldIs(m, src, r, s);
    UbfmIsLaid(m, src, r, s, lo, w);
  }

  lemma UbfmIsLaid(m: nat, src: Bits, r: nat, s: nat, lo: nat, w: nat)
    requires Move(m, r, s) && lo == Place(m, r, s).0 && w == Place(m, r, s).1
    ensures Val(Ubfm(m, src, r, s)) == Pow2(lo) * Val(FieldOf(m, src, r, s))
  {
    UbfmLaid(m, src, r, s);
    ValLaid(lo, FieldOf(m, src, r, s), false, 64 - lo - w);
  }

  lemma SbfmLaid(m: nat, src: Bits, r: nat, s: nat)
    requires Move(m, r, s)
    ensures var (lo, w, from) := Place(m, r, s);
      Sbfm(m, src, r, s) == Laid(lo, FieldOf(m, src, r, s), src[s], m - lo - w) + Fill(false, 64 - m)
  {
    var (lo, w, from) := Place(m, r, s);
    var got, want := Sbfm(m, src, r, s), Laid(lo, FieldOf(m, src, r, s), src[s], m - lo - w) + Fill(false, 64 - m);
    forall j | 0 <= j < 64 ensures got[j] == want[j] {
      SbfmBits(m, src, r, s, j);
      PaddedAt(m, lo, FieldOf(m, src, r, s), src[s], j);
      if lo <= j < lo + w { FieldAt(m, src, r, s, j - lo); }
    }
  }

  lemma PaddedAt(m: nat, lo: nat, field: seq<bool>, x: bool, j: nat)
    requires lo + |field| <= m <= 64 && j < 64
    ensures (Laid(lo, field, x, m - lo - |field|) + Fill(false, 64 - m))[j]
      == if j >= m || j < lo then false else if j < lo + |field| then field[j - lo] else x
  {
    if j < m {
      LaidAt(lo, field, x, m - lo - |field|, j);
    }
  }

  lemma ValAbove(b: seq<bool>, n: nat)
    ensures Val(b + Fill(false, n)) == Val(b)
  {
    ValConcat(b, Fill(false, n));
    ValFill(false, n);
  }

  /** SBFM computes the field as a two's complement number of its own width, shifted into place, modulo 2^m. */
  lemma SbfmValue(m: nat, src: Bits, r: nat, s: nat)
    requires Move(m, r, s)
    ensures var (lo, w, from) := Place(m, r, s);
      Val(Sbfm(m, src, r, s))
        == Pow2(lo) * FieldValue(m, src, r, s) + if src[s] then Pow2(m) - Pow2(lo) * Pow2(w) else 0
  {
    var (lo, w, from) := Place(m, r, s);
    var field := FieldOf(m, src, r, s);
    assert Val(field) == FieldValue(m, src, r, s) by { FieldIs(m, src, r, s); }
    SbfmIsLaid(m, src, r, s, lo, w);
    LaidWithin(m, lo, w, field, src[s]);
  }

  lemma SbfmIsLaid(m: nat, src: Bits, r: nat, s: nat, lo: nat, w: nat)
    requires Move(m, r, s) && lo == Place(m, r, s).0 && w == Place(m, r, s).1
    ensures Val(Sbfm(m, src, r, s)) == Val(Laid(lo, FieldOf(m, src, r, s), src[s], m - lo - w))
  {
    SbfmLaid(m, src, r, s);
    ValPadded(Sbfm(m, src, r, s), Laid(lo, FieldOf(m, src, r, s), src[s], m - lo - w), 64 - m);
  }

  lemma ValPadded(got: seq<bool>, b: seq<bool>, n: nat)
    requires got == b + Fill(false, n)
    ensures Val(got) == Val(b)
  {
    ValAbove(b, n);
  }

  lemma LaidWithin(m: nat, lo: nat, w: nat, field: seq<bool>, x: bool)
    requires |field| == w && lo + w <= m
    ensures Val(Laid(lo, field, x, m - lo - w)) == Pow2(lo) * Val(field) + if x then Pow2(m) - Pow2(lo) * Pow2(w) else 0
  {
    var n := m - lo - w;
    ValLaid(lo, field, x, n);
    assert lo + w + n == m;
    Pow2Sum(lo, w);
  }

  lemma BfmLaid(m: nat, dst: Bits, src: Bits, r: nat, s: nat)
    requires Move(m, r, s)
    ensures var (lo, w, from) := Place(m, r, s);
      Bfm(m, dst, src, r, s) == dst[..lo] + FieldOf(m, src, r, s) + dst[lo + w..m] + Fill(false, 64 - m)
  {
    var (lo, w, from) := Place(m, r, s);
    var got, want := Bfm(m, dst, src, r, s), dst[..lo] + FieldOf(m, src, r, s) + dst[lo + w..m] + Fill(false, 64 - m);
    forall j | 0 <= j < 64 ensures got[j] == want[j] {
      BfmBits(m, dst, src, r, s, j);
      InsertedAt(m, dst, FieldOf(m, src, r, s), lo, j);
      if lo <= j < lo + w { FieldAt(m, src, r, s, j - lo); }
    }
  }

  lemma InsertedAt(m: nat, dst: Bits, field: seq<bool>, lo: nat, j: nat)
    requires lo + |field| <= m <= 64 && j < 64
    ensures (dst[..lo] + field + dst[lo + |field|..m] + Fill(false, 64 - m))[j]
      == if j >= m then false else if lo <= j < lo + |field| then field[j - lo] else dst[j]
  {
  }

  /** BFM inserts the field between the destination's bits below and above it. */
  lemma BfmValue(m: nat, dst: Bits, src: Bits, r: nat, s: nat)
    requires Move(m, r, s)
    ensures var (lo, w, from) := Place(m, r, s);
      Val(Bfm(m, dst, src, r, s)) ==
      Val(dst) % Pow2(lo) + Pow2(lo) * FieldValue(m, src, r, s)
        + Pow2(lo + w) * (Val(dst) / Pow2(lo + w) % Pow2(m - lo - w))
  {
    var (lo, w, from) := Place(m, r, s);
    var field := FieldOf(m, src, r, s);
    BfmLaid(m, dst, src, r, s);
    FieldIs(m, src, r, s);
    ValPadded(Bfm(m, dst, src, r, s), dst[..lo] + field + dst[lo + w..m], 64 - m);
    ValThree(dst, field, lo, m);
  }

  lemma ValThree(dst: Bits, field: seq<bool>, lo: nat, m: nat)
    requires lo + |field| <= m <= 64
    ensures var k := lo + |field|;
      Val(dst[..lo] + field + dst[k..m]) ==
      Val(dst) % Pow2(lo) + Pow2(lo) * Val(field) + Pow2(k) * (Val(dst) / Pow2(k) % Pow2(m - k))
  {
    var k := lo + |field|;
    ValConcat(dst[..lo] + field, dst[k..m]);
    ValConcat(dst[..lo], field);
    ValSplit(dst, lo);
    ValSlice(dst, k, m - k);
    assert dst[k..k + (m - k)] == dst[k..m];
  }
}
