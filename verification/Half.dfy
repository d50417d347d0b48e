/** binary16 conversion: f16 and b16, on the bit patterns of binary16 and binary64 numbers. */
module Half {
  import opened Words

  const T42 := 0x400_0000_0000
  const T52 := 0x10_0000_0000_0000
  const T63 := 0x8000_0000_0000_0000
  const HALF_INF := 0x7c00

  type Half = h: int | 0 <= h < 0x1_0000

  // ---- fields ---------------------------------------------------------------------------

  /** The sign, exponent and fraction fields of a binary64 number. */
  function Sign(bits: Word): nat { bits / T63 }
  function Exp(bits: Word): nat { bits / T52 % 2048 }
  function Frac(bits: Word): nat { bits % T52 }

  function Double(sign: nat, exp: nat, frac: nat): (bits: Word)
    requires sign <= 1 && exp < 2048 && frac < T52
    ensures Sign(bits) == sign && Exp(bits) == exp && Frac(bits) == frac
  {
    sign * T63 + exp * T52 + frac
  }

  predicate IsNaN(bits: Word) { Exp(bits) == 2047 && Frac(bits) != 0 }
  predicate IsInf(bits: Word) { Exp(bits) == 2047 && Frac(bits) == 0 }
  predicate IsZero(bits: Word) { Exp(bits) == 0 && Frac(bits) == 0 }

  function HSign(h: Half): nat { h / 0x8000 }
  function HMag(h: Half): nat { h % 0x8000 }
  predicate HIsNaN(h: Half) { HMag(h) > HALF_INF }

  // ---- the code -------------------------------------------------------------------------

  /** Shifts a subnormal's fraction up until bit 10 is set, counting in e. */
  function Normalise(frac: nat, e: int): (r: (nat, int))
    requires 0 < frac < 0x800
    decreases 0x800 - frac
  {
    if frac >= 0x400 then (frac, e) else Normalise(2 * frac, e + 1)
  }

  lemma {:induction false} NormaliseIs(frac: nat, e: int) returns (k: nat)
    requires 0 < frac < 0x800
    ensures var (f, e') := Normalise(frac, e);
      0x400 <= f < 0x800 && k <= 10 && e' == e + k && f == frac * Pow2(k) && (frac < 0x400 ==> k > 0)
    decreases 0x800 - frac
  {
    if frac >= 0x400 {
      k := 0;
    } else {
      var j := NormaliseIs(2 * frac, e + 1);
      k := j + 1;
      Assoc(frac, 2, Pow2(j));
      SmallPow(j, frac);
    }
  }

  lemma NormaliseRange(frac: nat, e: int)
    requires 0 < frac < 0x400
    ensures var (f, e') := Normalise(frac, e); 0x400 <= f < 0x800 && e < e' <= e + 10
  {
    var k := NormaliseIs(frac, e);
  }

  lemma SmallPow(j: nat, frac: nat)
    requires j <= 10 && frac > 0 && 2 * frac * Pow2(j) < 0x800
    ensures j < 10
  {
    assert Pow2(10) == 1024;
  }

  function F16(b: Half): Word {
    var sign, exp, frac := b / 0x8000, b / 0x400 % 0x20, b % 0x400;
    if exp == 0 then
      if frac == 0 then Double(sign, 0, 0)
      else
        NormaliseRange(frac, -1);
        var (f, e) := Normalise(frac, -1);
        Double(sign, 1008 - e, f % 0x400 * T42)
    else if exp == 0x1f then Double(sign, 0x7ff, frac * T42)
    else Double(sign, exp - 15 + 1023, frac * T42)
  }

  /** The conversion as it is computed, with its normalising loop. */
  method FromHalf(b: Half) returns (d: Word)
    ensures d == F16(b)
  {
    var sign, exp, frac := b / 0x8000, b / 0x400 % 0x20, b % 0x400;
    if exp == 0 {
      if frac == 0 {
        return Double(sign, 0, 0);
      }
      var e := -1;
      NormaliseRange(frac, e);
      while frac < 0x400
        invariant 0 < frac < 0x800 && Normalise(frac, e) == Normalise(b % 0x400, -1)
        decreases 0x800 - frac
      {
        frac := 2 * frac;
        e := e + 1;
      }
      return Double(sign, 1008 - e, frac % 0x400 * T42);
    }
    if exp == 0x1f {
      return Double(sign, 0x7ff, frac * T42);
    }
    return Double(sign, exp - 15 + 1023, frac * T42);
  }

  /** Whether a remainder rounds the quotient m up: over half, or exactly half and m odd. */
  predicate RoundsUp(m: nat, rem: nat, half: nat) {
    rem > half || (rem == half && m % 2 == 1)
  }

  /** The 53-bit significand shifted down to the subnormal grid and rounded; a carry gives the smallest normal. */
  function SubnormalMag(sig: nat, shift: nat): (m: nat)
    requires sig < 2 * T52 && shift >= 43
    ensures m <= 0x400
  {
    SubnormalFits(sig, shift);
    var p := Pow2(shift);
    if RoundsUp(sig / p, sig % p, Pow2(shift - 1)) then sig / p + 1 else sig / p
  }

  /** The fraction rounded to 10 bits; a carry moves to the next exponent, past the last one to infinity. */
  function NormalMag(exp: int, frac: nat): (m: nat)
    requires -14 <= exp <= 15 && frac < T52
    ensures m <= HALF_INF
  {
    var m := frac / T42;
    if RoundsUp(m, frac % T42, T42 / 2) then
      if m + 1 == 0x400 then
        if exp + 1 > 15 then HALF_INF else (exp + 16) * 0x400
      else (exp + 15) * 0x400 + (m + 1)
    else (exp + 15) * 0x400 + m
  }

  function B16(bits: Word): Half {
    var sign, exp, frac := Sign(bits) * 0x8000, Exp(bits) - 1023, Frac(bits);
    if IsNaN(bits) then sign + HALF_INF + (if frac / T42 >= 0x200 then frac / T42 else frac / T42 + 0x200)
    else if IsInf(bits) then sign + HALF_INF
    else if IsZero(bits) then sign
    else if exp > 15 then sign + HALF_INF
    else if exp < -36 then sign
    else if exp < -14 then sign + SubnormalMag(frac + T52, 28 - exp)
    else sign + NormalMag(exp, frac)
  }

  lemma Pow2Consts()
    ensures Pow2(10) == 0x400 && Pow2(42) == T42 && Pow2(43) == 2 * T42 && Pow2(53) == 2 * T52
  {
    assert Pow2(10) == 0x400;
    Pow2Sum(10, 10);
    Pow2Sum(20, 20);
    Pow2Sum(2, 40);
    Pow2Sum(10, 43);
    assert Pow2(2) == 4;
  }

  lemma SubnormalFits(sig: nat, shift: nat)
    requires sig < 2 * T52 && shift >= 43
    ensures sig / Pow2(shift) < 0x400
  {
    Pow2Consts();
    Pow2Sum(43, shift - 43);
    MulMono(2 * T42, 1, Pow2(shift - 43));
    DivBound(sig, Pow2(shift), 0x400);
  }

  lemma DivBound(x: nat, d: nat, q: nat)
    requires d > 0 && x < d * q
    ensures x / d < q
  {
    if x / d >= q {
      MulMono(d, q, x / d);
    }
  }

  // ---- values ----------------------------------------------------------------------------

  /** The magnitude of a binary64 number as a multiple of 2^-1074; infinity continues the scale. */
  function Mag(bits: Word): nat {
    if Exp(bits) == 0 then Frac(bits) else (T52 + Frac(bits)) * Pow2(Exp(bits) - 1)
  }

  /** The magnitude of the binary16 encoding h on the same scale; 0x7c00 stands for 65536. */
  function HValue(h: nat): nat {
    if h / 0x400 == 0 then h * Pow2(1050) else (0x400 + h % 0x400) * Pow2(1050 + h / 0x400 - 1)
  }

  /** The distance from each encoding to the next. */
  function Ulp(h: nat): nat {
    if h / 0x400 == 0 then Pow2(1050) else Pow2(1050 + h / 0x400 - 1)
  }

  lemma HNext(h: nat)
    ensures HValue(h + 1) == HValue(h) + Ulp(h)
  {
    var u := Ulp(h);
    if (h + 1) % 0x400 == 0 {
      var e := h / 0x400;
      assert h == e * 0x400 + 0x3ff && (h + 1) / 0x400 == e + 1;
      if e > 0 {
        assert Pow2(1050 + e) == 2 * Pow2(1050 + e - 1);
        assert HValue(h + 1) == 0x400 * (2 * u);
      }
    } else {
      assert (h + 1) / 0x400 == h / 0x400;
    }
  }

  lemma {:induction false} HMono(g: nat, h: nat)
    requires g < h
    ensures HValue(g) < HValue(h)
  {
    HNext(h - 1);
    if g < h - 1 {
      HMono(g, h - 1);
    }
  }

  function Abs(x: int): nat { if x < 0 then -x else x }

  /** r is the encoding nearest x, and the even one of two that are equally near. */
  ghost predicate Nearest(x: nat, r: nat) {
    r <= HALF_INF
    && forall h: nat :: h <= HALF_INF ==>
      Abs(x - HValue(r)) <= Abs(x - HValue(h)) && (h != r && Abs(x - HValue(r)) == Abs(x - HValue(h)) ==> r % 2 == 0)
  }

  /** Between two neighbouring encodings, the nearer one wins. */
  lemma Between(x: nat, q: nat, r: nat)
    requires q < HALF_INF && HValue(q) <= x <= HValue(q + 1) && (r == q || r == q + 1)
    requires var a, b := x - HValue(q), HValue(q + 1) - x;
      (r == q ==> a < b || (a == b && q % 2 == 0)) && (r == q + 1 ==> b < a || (a == b && q % 2 == 1))
    ensures Nearest(x, r)
  {
    forall h: nat | h <= HALF_INF
      ensures Abs(x - HValue(r)) <= Abs(x - HValue(h))
        && (h != r && Abs(x - HValue(r)) == Abs(x - HValue(h)) ==> r % 2 == 0) {
      NoNearer(x, q, h);
      Decides(x, HValue(q), HValue(q + 1), q, r, HValue(r), h, HValue(h));
    }
  }

  lemma Decides(x: nat, lo: nat, hi: nat, q: nat, r: nat, vr: nat, h: nat, vh: nat)
    requires lo <= x <= hi && ((r == q && vr == lo) || (r == q + 1 && vr == hi))
    requires (r == q ==> x - lo < hi - x || (x - lo == hi - x && q % 2 == 0))
    requires (r == q + 1 ==> hi - x < x - lo || (x - lo == hi - x && q % 2 == 1))
    requires h <= q ==> if h == q then vh == lo else vh < lo
    requires h > q ==> if h == q + 1 then vh == hi else hi < vh
    ensures Abs(x - vr) <= Abs(x - vh) && (h != r && Abs(x - vr) == Abs(x - vh) ==> r % 2 == 0)
  {
  }

  lemma NoNearer(x: nat, q: nat, h: nat)
    requires HValue(q) <= x <= HValue(q + 1)
    ensures h <= q ==> HValue(h) <= HValue(q) && (h == q || HValue(h) < HValue(q))
    ensures h > q ==> HValue(q + 1) <= HValue(h) && (h == q + 1 || HValue(q + 1) < HValue(h))
  {
    if h < q { HMono(h, q); } else if h > q + 1 { HMono(q + 1, h); }
  }

  lemma Beyond(x: nat)
    requires x >= HValue(HALF_INF)
    ensures Nearest(x, HALF_INF)
  {
    forall h: nat | h <= HALF_INF ensures Abs(x - HValue(HALF_INF)) <= Abs(x - HValue(h)) {
      if h < HALF_INF { HMono(h, HALF_INF); }
    }
  }

  /** Two roundings of ordered numbers are ordered. */
  lemma NearestMono(x: nat, y: nat, r: nat, q: nat)
    requires x <= y && Nearest(x, r) && Nearest(y, q)
    ensures r <= q
  {
    Closer(x, r, q);
    Closer(y, q, r);
    if r > 0 {
      Closer(x, r, r - 1);
      HMono(r - 1, r);
      if q < r - 1 {
        HMono(q, r - 1);
      }
    }
  }

  lemma Closer(x: nat, r: nat, h: nat)
    requires Nearest(x, r) && h <= HALF_INF
    ensures Abs(x - HValue(r)) <= Abs(x - HValue(h))
      && (h != r && Abs(x - HValue(r)) == Abs(x - HValue(h)) ==> r % 2 == 0)
  {
  }

  // ---- correct rounding --------------------------------------------------------------------

  /** Rounding s / p, with ties to even, rounds s units of u to the grid of steps p * u. */
  lemma Scaled(s: nat, p: nat, half: nat, u: nat, q: nat)
    requires u > 0 && p == 2 * half && half > 0 && q < HALF_INF && q % 2 == s / p % 2
    requires HValue(q) == s / p * (p * u) && Ulp(q) == p * u
    ensures Nearest(s * u, if RoundsUp(s / p, s % p, half) then q + 1 else q)
  {
    Split(s, p, u);
    Assoc(2, half, u);
    ScaledParts(s * u, s / p, s % p, half, u, p * u, q);
  }

  lemma ScaledParts(x: nat, m: nat, rem: nat, half: nat, u: nat, step: nat, q: nat)
    requires u > 0 && rem < 2 * half && q < HALF_INF && q % 2 == m % 2
    requires HValue(q) == m * step && Ulp(q) == step == 2 * (half * u) && x == m * step + rem * u
    ensures Nearest(x, if RoundsUp(m, rem, half) then q + 1 else q)
  {
    Compare(rem, half, u);
    HNext(q);
    Rounded(x, q, rem * u, half * u, m, rem, half);
  }

  lemma Rounded(x: nat, q: nat, above: nat, mid: nat, m: nat, rem: nat, half: nat)
    requires q < HALF_INF && q % 2 == m % 2 && x == HValue(q) + above && HValue(q + 1) == HValue(q) + 2 * mid
      && above < 2 * mid
    requires (rem < half <==> above < mid) && (rem == half <==> above == mid)
    ensures Nearest(x, if RoundsUp(m, rem, half) then q + 1 else q)
  {
    Between(x, q, if RoundsUp(m, rem, half) then q + 1 else q);
  }

  lemma Split(s: nat, p: nat, u: nat)
    requires p > 0
    ensures s * u == s / p * (p * u) + s % p * u
  {
    var q, r := s / p, s % p;
    assert s == p * q + r;
    Distribute(p, q, r, u);
  }

  lemma Distribute(p: nat, q: nat, r: nat, u: nat)
    ensures (p * q + r) * u == q * (p * u) + r * u
  {
    assert p * q * u == q * (p * u);
  }

  lemma Compare(rem: nat, half: nat, u: nat)
    requires u > 0 && rem < 2 * half
    ensures 2 * half * u == 2 * (half * u) && rem * u < 2 * (half * u)
    ensures (rem < half <==> rem * u < half * u) && (rem == half <==> rem * u == half * u)
  {
    Strict(u, rem, 2 * half);
    assert u * (2 * half) == 2 * (half * u);
    if rem < half {
      Strict(u, rem, half);
    } else if rem > half {
      Strict(u, half, rem);
    }
  }

  lemma Strict(u: nat, a: nat, b: nat)
    requires u > 0 && a < b
    ensures a * u < b * u && u * b == b * u
  {
    MulMono(u, a + 1, b);
    assert u * (a + 1) == a * u + u;
  }

  lemma NormalRounds(bits: Word)
    requires 1009 <= Exp(bits) <= 1038
    ensures HSign(B16(bits)) == Sign(bits) && Nearest(Mag(bits), HMag(B16(bits)))
  {
    var he, frac := Exp(bits) - 1008, Frac(bits);
    var m := frac / T42;
    var q := he * 0x400 + m;
    NormalResult(bits, he, m);
    NormalScaled(he, frac);
  }

  lemma NormalResult(bits: Word, he: nat, m: nat)
    requires 1009 <= Exp(bits) <= 1038 && he == Exp(bits) - 1008 && m == Frac(bits) / T42
    ensures m < 0x400 && HSign(B16(bits)) == Sign(bits)
    ensures HMag(B16(bits)) == he * 0x400 + m + if RoundsUp(m, Frac(bits) % T42, T42 / 2) then 1 else 0
  {
  }

  lemma NormalGrid(he: nat, m: nat)
    requires 1 <= he && m < 0x400
    ensures var q := he * 0x400 + m;
      HValue(q) == (0x400 + m) * (T42 * Pow2(he + 1007)) && Ulp(q) == T42 * Pow2(he + 1007)
  {
    var q := he * 0x400 + m;
    assert q / 0x400 == he && q % 0x400 == m;
    Pow2Consts();
    Pow2Sum(42, he + 1007);
  }

  lemma NormalDigits(frac: nat)
    requires frac < T52
    ensures var m := frac / T42;
      m < 0x400 && (T52 + frac) / T42 == 0x400 + m && (T52 + frac) % T42 == frac % T42
      && RoundsUp(m, frac % T42, T42 / 2) == RoundsUp(0x400 + m, frac % T42, T42 / 2)
  {
  }

  lemma NormalScaled(he: nat, frac: nat)
    requires 1 <= he <= 30 && frac < T52
    ensures var m, q := frac / T42, he * 0x400 + frac / T42;
      Nearest((T52 + frac) * Pow2(he + 1007), if RoundsUp(m, frac % T42, T42 / 2) then q + 1 else q)
  {
    var m, u, q := frac / T42, Pow2(he + 1007), he * 0x400 + frac / T42;
    NormalGrid(he, m);
    NormalDigits(frac);
    SameParity(he, m);
    Scaled(T52 + frac, T42, T42 / 2, u, q);
  }

  lemma SameParity(he: nat, m: nat)
    ensures (he * 0x400 + m) % 2 == (0x400 + m) % 2 == m % 2
  {
  }

  lemma SubnormalRounds(bits: Word)
    requires 987 <= Exp(bits) < 1009
    ensures HSign(B16(bits)) == Sign(bits) && Nearest(Mag(bits), HMag(B16(bits)))
  {
    var shift, sig := 1051 - Exp(bits), Frac(bits) + T52;
    SubnormalScaled(sig, shift);
  }

  lemma SubnormalScaled(sig: nat, shift: nat)
    requires sig < 2 * T52 && 43 <= shift <= 1050
    ensures Nearest(sig * Pow2(1050 - shift), SubnormalMag(sig, shift))
  {
    SubnormalFits(sig, shift);
    SubnormalGrid(sig / Pow2(shift), Pow2(shift), Pow2(1050 - shift), shift);
    Scaled(sig, Pow2(shift), Pow2(shift - 1), Pow2(1050 - shift), sig / Pow2(shift));
  }

  lemma SubnormalGrid(m: nat, p: nat, u: nat, shift: nat)
    requires m < 0x400 && shift <= 1050 && p == Pow2(shift) && u == Pow2(1050 - shift)
    ensures HValue(m) == m * (p * u) && Ulp(m) == p * u
  {
    Pow2Sum(shift, 1050 - shift);
  }

  lemma TinyRounds(bits: Word)
    requires Exp(bits) < 987
    ensures Nearest(Mag(bits), 0)
  {
    var e := if Exp(bits) == 0 then 0 else Exp(bits) - 1;
    var sig := if Exp(bits) == 0 then Frac(bits) else T52 + Frac(bits);
    assert Pow2(0) == 1 && Mag(bits) == sig * Pow2(e);
    Tiny(sig, e);
    HNext(0);
    assert Ulp(0) == Pow2(1050) && HValue(0) == 0;
    Between(Mag(bits), 0, 0);
  }

  /** Below half of the smallest subnormal. */
  lemma Tiny(sig: nat, e: nat)
    requires sig < 2 * T52 && e <= 985
    ensures 2 * (sig * Pow2(e)) < Pow2(1050)
  {
    Pow2Consts();
    Pow2Mono(e, 985);
    MulBoth(sig, 2 * T52, Pow2(e), Pow2(985));
    Pow2Sum(53, 985);
    Pow2Mono(1040, 1050);
    assert Pow2(1040) == 2 * Pow2(1039) == 4 * Pow2(1038);
  }

  lemma MulBoth(a: nat, b: nat, c: nat, d: nat)
    requires a <= b && c <= d
    ensures a * c <= b * d
  {
    MulMono(c, a, b);
    MulMono(b, c, d);
  }

  lemma HugeRounds(bits: Word)
    requires Exp(bits) > 1038
    ensures Nearest(Mag(bits), HALF_INF)
  {
    Huge(T52 + Frac(bits), Exp(bits) - 1);
    Beyond(Mag(bits));
  }

  lemma Huge(sig: nat, e: nat)
    requires sig >= T52 && e >= 1038
    ensures sig * Pow2(e) >= HValue(HALF_INF)
  {
    Pow2Consts();
    Pow2Mono(1038, e);
    Pow2Sum(42, 1038);
    MulBoth(T52, sig, Pow2(1038), Pow2(e));
    assert HValue(HALF_INF) == 0x400 * Pow2(1080) == 0x400 * (T42 * Pow2(1038));
  }

  /** Every binary64 number that is not a NaN converts to the nearest binary16 number of the same sign, ties to even,
      where 0x7c00, infinity, stands for 65536: subnormals, underflow, overflow and every carry included. */
  lemma CorrectlyRounded(bits: Word)
    requires !IsNaN(bits)
    ensures HSign(B16(bits)) == Sign(bits) && Nearest(Mag(bits), HMag(B16(bits))) && !HIsNaN(B16(bits))
  {
    if IsInf(bits) || Exp(bits) > 1038 {
      HugeRounds(bits);
    } else if Exp(bits) < 987 {
      TinyRounds(bits);
    } else if Exp(bits) < 1009 {
      SubnormalRounds(bits);
    } else {
      NormalRounds(bits);
    }
  }

  /** The value of a number with its sign. */
  function Signed(sign: nat, mag: nat): int {
    var m: int := mag;
    if sign == 1 then -m else m
  }

  /** Conversion never reverses the order of two numbers. */
  lemma Monotone(a: Word, b: Word)
    requires !IsNaN(a) && !IsNaN(b) && Signed(Sign(a), Mag(a)) <= Signed(Sign(b), Mag(b))
    ensures Signed(HSign(B16(a)), HMag(B16(a))) <= Signed(HSign(B16(b)), HMag(B16(b)))
  {
    CorrectlyRounded(a);
    CorrectlyRounded(b);
    if Sign(a) == 0 && Sign(b) == 0 {
      NearestMono(Mag(a), Mag(b), HMag(B16(a)), HMag(B16(b)));
    } else if Sign(a) == 1 && Sign(b) == 1 {
      NearestMono(Mag(b), Mag(a), HMag(B16(b)), HMag(B16(a)));
    } else if Sign(a) == 0 {
      MagZero(a);
      MagZero(b);
    }
  }

  lemma MagZero(a: Word)
    requires !IsNaN(a) && Mag(a) == 0
    ensures HMag(B16(a)) == 0
  {
    CorrectlyRounded(a);
    Closer(0, HMag(B16(a)), 0);
    if HMag(B16(a)) > 0 {
      HMono(0, HMag(B16(a)));
    }
  }

  // ---- widening ---------------------------------------------------------------------------------

  /** Widening is exact. */
  lemma WideningExact(h: Half)
    requires HMag(h) <= HALF_INF
    ensures Sign(F16(h)) == HSign(h) && !IsNaN(F16(h)) && (HMag(h) < HALF_INF ==> Mag(F16(h)) == HValue(HMag(h)))
    ensures HMag(h) == HALF_INF ==> IsInf(F16(h))
  {
    HalfFields(h);
    var exp, frac := h / 0x400 % 0x20, h % 0x400;
    if 0 < exp < 0x1f {
      NormalExact(h);
    } else if exp == 0 && frac > 0 {
      SubnormalExact(h);
    } else if exp == 0 {
      DoubleIs(HSign(h), 0, 0);
    } else {
      DoubleIs(HSign(h), 0x7ff, frac * T42);
    }
  }

  lemma HalfFields(h: Half)
    ensures HMag(h) == h / 0x400 % 0x20 * 0x400 + h % 0x400
    ensures HMag(h) / 0x400 == h / 0x400 % 0x20 && HMag(h) % 0x400 == h % 0x400
  {
  }

  lemma DoubleIs(sign: nat, exp: nat, frac: nat)
    requires sign <= 1 && exp < 2048 && frac < T52
    ensures var d := Double(sign, exp, frac);
      Mag(d) == (if exp == 0 then frac else (T52 + frac) * Pow2(exp - 1))
      && (IsNaN(d) <==> exp == 2047 && frac != 0) && (IsInf(d) <==> exp == 2047 && frac == 0)
  {
  }

  lemma NormalExact(h: Half)
    requires 0 < h / 0x400 % 0x20 < 0x1f
    ensures Mag(F16(h)) == HValue(HMag(h)) && !IsNaN(F16(h)) && Sign(F16(h)) == HSign(h)
  {
    var exp, frac := h / 0x400 % 0x20, h % 0x400;
    HalfFields(h);
    DoubleIs(HSign(h), exp + 1008, frac * T42);
    NormalScale(exp, frac);
    assert T52 + frac * T42 == (0x400 + frac) * T42;
  }

  lemma NormalScale(exp: nat, frac: nat)
    ensures (0x400 + frac) * T42 * Pow2(exp + 1007) == (0x400 + frac) * Pow2(exp + 1049)
  {
    Pow2Consts();
    Pow2Sum(42, exp + 1007);
    Assoc(0x400 + frac, T42, Pow2(exp + 1007));
  }

  lemma SubnormalExact(h: Half)
    requires 0 < HMag(h) < 0x400
    ensures Mag(F16(h)) == HValue(HMag(h)) && !IsNaN(F16(h)) && Sign(F16(h)) == HSign(h)
  {
    var frac := h % 0x400;
    assert h / 0x400 % 0x20 == 0 && HMag(h) == frac;
    var k := NormaliseIs(frac, -1);
    NormaliseRange(frac, -1);
    var f := frac * Pow2(k);
    SubnormalBits(h, frac, f, k);
    SubnormalScale(frac, k);
  }

  lemma SubnormalBits(h: Half, frac: nat, f: nat, k: nat)
    requires 0 < frac < 0x400 && HMag(h) == frac && Normalise(frac, -1) == (f, k - 1) && 0x400 <= f < 0x800
      && 0 < k <= 10
    ensures Mag(F16(h)) == f * T42 * Pow2(1008 - k) && !IsNaN(F16(h)) && Sign(F16(h)) == HSign(h)
  {
    HalfFields(h);
    DoubleIs(HSign(h), 1009 - k, f % 0x400 * T42);
    TopBit(f);
  }

  /** The leading bit of a normalised significand is the implicit one. */
  lemma TopBit(f: nat)
    requires 0x400 <= f < 0x800
    ensures f % 0x400 * T42 < T52 && T52 + f % 0x400 * T42 == f * T42
  {
  }

  lemma SubnormalScale(frac: nat, k: nat)
    requires k <= 10
    ensures frac * Pow2(k) * T42 * Pow2(1008 - k) == frac * Pow2(1050)
  {
    Pow2Consts();
    Pow2Sum(k, 42);
    Pow2Sum(k + 42, 1008 - k);
    Assoc(frac, Pow2(k), T42);
    Assoc(frac, Pow2(k) * T42, Pow2(1008 - k));
  }

  lemma NearestSelf(h: nat, r: nat)
    requires h <= HALF_INF && Nearest(HValue(h), r)
    ensures r == h
  {
    assert Abs(HValue(h) - HValue(r)) <= Abs(HValue(h) - HValue(h));
    if r < h { HMono(r, h); } else if h < r { HMono(h, r); }
  }

  /** Widening a binary16 number and narrowing it gives the number back; a NaN comes back quiet. */
  lemma RoundTrip(h: Half)
    ensures B16(F16(h)) == if HIsNaN(h) && h / 0x200 % 2 == 0 then h + 0x200 else h
  {
    if !HIsNaN(h) {
      WideningExact(h);
      CorrectlyRounded(F16(h));
      if HMag(h) < HALF_INF {
        NearestSelf(HMag(h), HMag(B16(F16(h))));
      }
    } else {
      var frac := h % 0x400;
      assert h / 0x400 % 0x20 == 0x1f && HMag(h) == HALF_INF + frac;
      assert Frac(F16(h)) == frac * T42 && frac * T42 / T42 == frac;
      assert h / 0x200 % 2 == if frac >= 0x200 then 1 else 0;
    }
  }

  /** A NaN narrows to a quiet NaN with its sign and the top of its payload; nothing else narrows to a NaN. */
  lemma NaNs(bits: Word)
    ensures HIsNaN(B16(bits)) <==> IsNaN(bits)
    ensures IsNaN(bits) ==> HSign(B16(bits)) == Sign(bits) && B16(bits) % 0x200 == Frac(bits) / T42 % 0x200
    ensures IsNaN(bits) ==> B16(bits) / 0x200 % 2 == 1
  {
    if !IsNaN(bits) {
      CorrectlyRounded(bits);
    }
  }
}
