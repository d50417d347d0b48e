/** Condition flags: addition with carry, multi-word chains, and the table of condition codes. */
module Flags {
  import opened Words

  // ---- NZCV -----------------------------------------------------------------------------

  const FLAG_N := 0x8000_0000
  const FLAG_Z := 0x4000_0000
  const FLAG_C := 0x2000_0000
  const FLAG_V := 0x1000_0000

  function Bit(b: bool): nat { if b then 1 else 0 }

  function Pack(n: bool, z: bool, c: bool, v: bool): nat {
    Bit(n) * FLAG_N + Bit(z) * FLAG_Z + Bit(c) * FLAG_C + Bit(v) * FLAG_V
  }

  predicate N(f: nat) { f / FLAG_N % 2 == 1 }
  predicate Z(f: nat) { f / FLAG_Z % 2 == 1 }
  predicate C(f: nat) { f / FLAG_C % 2 == 1 }
  predicate V(f: nat) { f / FLAG_V % 2 == 1 }

  function Carry(f: nat): nat { f / FLAG_C % 2 }

  lemma Packed(n: bool, z: bool, c: bool, v: bool)
    ensures var f := Pack(n, z, c, v); N(f) == n && Z(f) == z && C(f) == c && V(f) == v && Carry(f) == Bit(c)
  {
  }

  // ---- addition with carry -----------------------------------------------------------------

  /** The operand sizes: 32 and 64 bits. */
  predicate Modulus(m: nat) { m == B32 || m == B64 }

  predicate Top(m: nat, x: nat) { x >= m / 2 }

  /** The sum and its flags. Bit 63 (or 31) of (a ^ r) & (b ^ r) says that both operands differ from r in sign. */
  function AddFlags(m: nat, a: nat, b: nat, cin: nat): (nat, nat)
    requires Modulus(m) && a < m && b < m && cin <= 1
  {
    var r := (a + b + cin) % m;
    (r, Pack(Top(m, r), r == 0, a + b + cin >= m, Top(m, a) != Top(m, r) && Top(m, b) != Top(m, r)))
  }

  function Not(m: nat, b: nat): (r: nat)
    requires b < m
    ensures r < m
  {
    m - 1 - b
  }

  /** The two's complement value. */
  function Int(m: nat, x: nat): int {
    if Top(m, x) then x - m else x
  }

  /** The result and carry are the exact sum; Z, N and V describe the result as a two's complement number. */
  lemma AddExact(m: nat, a: nat, b: nat, cin: nat)
    requires Modulus(m) && a < m && b < m && cin <= 1
    ensures var (r, f) := AddFlags(m, a, b, cin);
      && r < m && r + Carry(f) * m == a + b + cin && Carry(f) == Bit(C(f))
      && (Z(f) <==> r == 0) && (N(f) <==> Int(m, r) < 0)
      && (V(f) <==> Int(m, a) + Int(m, b) + cin != Int(m, r))
  {
    var r := (a + b + cin) % m;
    Packed(Top(m, r), r == 0, a + b + cin >= m, Top(m, a) != Top(m, r) && Top(m, b) != Top(m, r));
  }

  /** Subtraction as addition of the complement: C is not-borrow, Z equality, N != V the signed less-than. */
  lemma SubExact(m: nat, a: nat, b: nat, cin: nat)
    requires Modulus(m) && a < m && b < m && cin <= 1
    ensures var (r, f) := AddFlags(m, a, Not(m, b), cin);
      && r - (1 - Carry(f)) * m == a - b - (1 - cin)
      && (C(f) <==> a - b - (1 - cin) >= 0)
      && (N(f) != V(f) <==> Int(m, a) - Int(m, b) - (1 - cin) < 0)
      && (cin == 1 ==> (Z(f) <==> a == b))
  {
    AddExact(m, a, Not(m, b), cin);
  }

  // ---- condition codes ------------------------------------------------------------------------

  /** The eight conditions that have a code, in the order of the codes' upper three bits. */
  predicate Base(k: nat, n: bool, z: bool, c: bool, v: bool) {
    match k
    case 0 => z
    case 1 => c
    case 2 => n
    case 3 => v
    case 4 => c && !z
    case 5 => n == v
    case 6 => !z && n == v
    case _ => true
  }

  /** Whether code cc holds; odd codes negate, except the last. */
  predicate Code(cc: nat, n: bool, z: bool, c: bool, v: bool) {
    if cc % 2 == 1 && cc % 16 != 15 then !Base(cc % 16 / 2, n, z, c, v) else Base(cc % 16 / 2, n, z, c, v)
  }

  /** Whether code cc holds for flag nibble f (N=8, Z=4, C=2, V=1). */
  predicate Holds(cc: nat, f: nat) {
    Code(cc, f / 8 % 2 == 1, f / 4 % 2 == 1, f / 2 % 2 == 1, f % 2 == 1)
  }

  function Nibble(nzcv: nat): nat { nzcv / FLAG_V % 16 }

  /** Bit f of a table row. */
  predicate RowBit(row: nat, f: nat) {
    row / Pow2(f) % 2 == 1
  }

  /** A row for the nibbles below f. */
  ghost predicate RowUpTo(row: nat, cc: nat, f: nat) {
    row < Pow2(f) && BitsUpTo(row, cc, f)
  }

  ghost predicate BitsUpTo(row: nat, cc: nat, f: nat) {
    forall g :: 0 <= g < f ==> RowBitOk(row, cc, g)
  }

  ghost predicate RowBitOk(row: nat, cc: nat, g: nat) {
    RowBit(row, g) <==> Holds(cc, g)
  }

  lemma SetBit(row: nat, f: nat, g: nat)
    requires row < Pow2(f) && g <= f
    ensures RowBit(row + Pow2(f), g) <==> g == f || RowBit(row, g)
    ensures g == f ==> !RowBit(row, g)
  {
    if g == f {
      DivModUnique(row + Pow2(f), Pow2(f), 1, row);
      DivModUnique(row, Pow2(f), 0, row);
    } else {
      Pow2Sum(g, f - g);
      AddEven(row, Pow2(g), Pow2(f - g - 1));
    }
  }

  lemma AddEven(x: nat, p: nat, h: nat)
    requires p > 0
    ensures (x + p * (2 * h)) / p % 2 == x / p % 2
  {
    var q, r := x / p, x % p;
    assert x == p * q + r;
    assert p * (q + 2 * h) == p * q + p * (2 * h);
    DivModUnique(x + p * (2 * h), p, q + 2 * h, r);
  }

  lemma RowNext(row: nat, cc: nat, f: nat)
    requires RowUpTo(row, cc, f)
    ensures RowUpTo(if Holds(cc, f) then row + Pow2(f) else row, cc, f + 1)
  {
    assert Pow2(f + 1) == 2 * Pow2(f);
    var r := if Holds(cc, f) then row + Pow2(f) else row;
    forall g | 0 <= g < f + 1 ensures RowBitOk(r, cc, g) {
      RowBitNext(row, cc, f, g);
    }
  }

  lemma RowBitNext(row: nat, cc: nat, f: nat, g: nat)
    requires row < Pow2(f) && BitsUpTo(row, cc, f) && g <= f
    ensures RowBitOk(if Holds(cc, f) then row + Pow2(f) else row, cc, g)
  {
    SetBit(row, f, g);
    assert g < f ==> RowBitOk(row, cc, g);
  }

  /** Builds the table: for each of the sixteen codes a row with one bit per flag nibble. */
  method CondTab() returns (tab: array<nat>)
    ensures fresh(tab) && tab.Length == 16
    ensures forall cc :: 0 <= cc < 16 ==> RowUpTo(tab[cc], cc, 16)
  {
    tab := new nat[16](_ => 0);
    for f := 0 to 16
      invariant forall cc :: 0 <= cc < 16 ==> RowUpTo(tab[cc], cc, f)
    {
      for cc := 0 to 16
        invariant forall k :: 0 <= k < cc ==> RowUpTo(tab[k], k, f + 1)
        invariant forall k :: cc <= k < 16 ==> RowUpTo(tab[k], k, f)
      {
        RowNext(tab[cc], cc, f);
        if Holds(cc, f) {
          tab[cc] := tab[cc] + Pow2(f);
        }
      }
    }
  }

  /** The lookup of a code finds what the code says of the flags. */
  method LookUp(tab: array<nat>, nzcv: nat, cc: nat) returns (r: bool)
    requires tab.Length == 16 && forall k :: 0 <= k < 16 ==> RowUpTo(tab[k], k, 16)
    ensures r == Cond(nzcv, cc)
  {
    r := tab[cc % 16] / Pow2(Nibble(nzcv)) % 2 != 0;
    assert RowBitOk(tab[cc % 16], cc % 16, Nibble(nzcv));
  }

  /** Looks a code up. */
  predicate Cond(nzcv: nat, cc: nat) {
    Holds(cc % 16, Nibble(nzcv))
  }

  lemma CondPacked(n: bool, z: bool, c: bool, v: bool, cc: nat)
    ensures Cond(Pack(n, z, c, v), cc) <==> Code(cc % 16, n, z, c, v)
  {
    PackedNibble(n, z, c, v);
  }

  lemma PackedNibble(n: bool, z: bool, c: bool, v: bool)
    ensures var f := Nibble(Pack(n, z, c, v));
      (f / 8 % 2 == 1) == n && (f / 4 % 2 == 1) == z && (f / 2 % 2 == 1) == c && (f % 2 == 1) == v
  {
    var f := 8 * Bit(n) + 4 * Bit(z) + 2 * Bit(c) + Bit(v);
    assert Pack(n, z, c, v) == FLAG_V * f;
    NibbleOf(f);
    FourBits(n, z, c, v);
  }

  lemma NibbleOf(f: nat)
    requires f < 16
    ensures Nibble(FLAG_V * f) == f
  {
  }

  lemma FourBits(n: bool, z: bool, c: bool, v: bool)
    ensures var f := 8 * Bit(n) + 4 * Bit(z) + 2 * Bit(c) + Bit(v);
      (f / 8 % 2 == 1) == n && (f / 4 % 2 == 1) == z && (f / 2 % 2 == 1) == c && (f % 2 == 1) == v
  {
  }

  /** What each condition code asks of two numbers that have been compared. */
  predicate Compares(cc: nat, m: nat, a: nat, b: nat)
    requires a < m && b < m
  {
    match cc % 16
    case 0 => a == b
    case 1 => a != b
    case 2 => a >= b
    case 3 => a < b
    case 4 => Int(m, (a - b) % m) < 0
    case 5 => Int(m, (a - b) % m) >= 0
    case 6 => Int(m, a) - Int(m, b) != Int(m, (a - b) % m)
    case 7 => Int(m, a) - Int(m, b) == Int(m, (a - b) % m)
    case 8 => a > b
    case 9 => a <= b
    case 10 => Int(m, a) >= Int(m, b)
    case 11 => Int(m, a) < Int(m, b)
    case 12 => Int(m, a) > Int(m, b)
    case 13 => Int(m, a) <= Int(m, b)
    case _ => true
  }

  /** After SUBS every code holds exactly when its comparison does, unsigned or signed, at both sizes. */
  lemma CondAfterSubs(m: nat, a: nat, b: nat, cc: nat)
    requires Modulus(m) && a < m && b < m && cc < 16
    ensures Cond(AddFlags(m, a, Not(m, b), 1).1, cc) <==> Compares(cc, m, a, b)
  {
    var r := AddFlags(m, a, Not(m, b), 1).0;
    var n, z, c := Top(m, r), r == 0, a + Not(m, b) + 1 >= m;
    var v := Top(m, a) != Top(m, r) && Top(m, Not(m, b)) != Top(m, r);
    assert AddFlags(m, a, Not(m, b), 1).1 == Pack(n, z, c, v);
    CondPacked(n, z, c, v, cc);
    CodeAfter(m, a, b, r, n, z, c, v, cc);
  }

  lemma CodeAfter(m: nat, a: nat, b: nat, r: nat, n: bool, z: bool, c: bool, v: bool, cc: nat)
    requires Modulus(m) && a < m && b < m && r == (a + Not(m, b) + 1) % m && cc < 16
    requires n == Top(m, r) && z == (r == 0) && c == (a + Not(m, b) + 1 >= m)
    requires v == (Top(m, a) != Top(m, r) && Top(m, Not(m, b)) != Top(m, r))
    ensures Code(cc, n, z, c, v) <==> Compares(cc, m, a, b)
  {
    SubDecides(m, a, b, r, n, z, c, v);
    CodeDecides(m, a, b, r, n, z, c, v, cc);
  }

  lemma SubDecides(m: nat, a: nat, b: nat, r: nat, n: bool, z: bool, c: bool, v: bool)
    requires Modulus(m) && a < m && b < m && r == (a + Not(m, b) + 1) % m
    requires n == Top(m, r) && z == (r == 0) && c == (a + Not(m, b) + 1 >= m)
    requires v == (Top(m, a) != Top(m, r) && Top(m, Not(m, b)) != Top(m, r))
    ensures r == (a - b) % m && z == (a == b) && c == (a >= b) && n == (Int(m, r) < 0)
    ensures v == (Int(m, a) - Int(m, b) != Int(m, r)) && (n != v <==> Int(m, a) < Int(m, b))
  {
  }

  lemma CodeDecides(m: nat, a: nat, b: nat, r: nat, n: bool, z: bool, c: bool, v: bool, cc: nat)
    requires Modulus(m) && a < m && b < m && r == (a - b) % m && cc < 16
    requires z == (a == b) && c == (a >= b) && n == (Int(m, r) < 0)
    requires v == (Int(m, a) - Int(m, b) != Int(m, r)) && (n != v <==> Int(m, a) < Int(m, b))
    ensures Code(cc, n, z, c, v) <==> Compares(cc, m, a, b)
  {
    assert a == b <==> Int(m, a) == Int(m, b);
  }

  /** A conditional compare sets the flags of its own comparison when its condition holds, and the given ones otherwise:
      a chain of them decides a conjunction of comparisons. */
  function Ccmp(m: nat, nzcv: nat, cc: nat, a: nat, b: nat, fallback: nat): nat
    requires Modulus(m) && a < m && b < m
  {
    if !Cond(nzcv, cc) then fallback * FLAG_V else AddFlags(m, a, Not(m, b), 1).1
  }

  lemma CcmpChains(m: nat, a: nat, b: nat, cc: nat, c: nat, d: nat, dd: nat, fallback: nat)
    requires Modulus(m) && a < m && b < m && c < m && d < m && cc < 16 && dd < 16 && fallback < 16
    ensures Cond(Ccmp(m, AddFlags(m, a, Not(m, b), 1).1, cc, c, d, fallback), dd) <==>
      if Compares(cc, m, a, b) then Compares(dd, m, c, d) else Holds(dd, fallback)
  {
    CondAfterSubs(m, a, b, cc);
    CcmpDecides(m, AddFlags(m, a, Not(m, b), 1).1, cc, c, d, dd, fallback);
  }

  lemma CcmpDecides(m: nat, nzcv: nat, cc: nat, c: nat, d: nat, dd: nat, fallback: nat)
    requires Modulus(m) && c < m && d < m && dd < 16 && fallback < 16
    ensures Cond(Ccmp(m, nzcv, cc, c, d, fallback), dd)
      <==> if Cond(nzcv, cc) then Compares(dd, m, c, d) else Holds(dd, fallback)
  {
    if Cond(nzcv, cc) {
      CondAfterSubs(m, c, d, dd);
    } else {
      assert Nibble(fallback * FLAG_V) == fallback;
    }
  }

  // ---- multi-word chains --------------------------------------------------------------------------

  function Power(m: nat, n: nat): (p: nat)
    requires Modulus(m)
    ensures p > 0
  {
    if n == 0 then 1 else m * Power(m, n - 1)
  }

  predicate Fit(m: nat, ws: seq<nat>) {
    forall i :: 0 <= i < |ws| ==> ws[i] < m
  }

  /** The number whose words, least significant first, are ws. */
  function Value(m: nat, ws: seq<nat>): (v: nat)
    requires Modulus(m) && Fit(m, ws)
    ensures v < Power(m, |ws|)
  {
    if |ws| == 0 then 0
    else
      var k := |ws| - 1;
      ValueBound(m, Value(m, ws[..k]), ws[k], Power(m, k));
      Value(m, ws[..k]) + ws[k] * Power(m, k)
  }

  lemma ValueBound(m: nat, v: nat, w: nat, p: nat)
    requires v < p && w < m
    ensures 0 <= v + w * p < m * p
  {
    MulMono(p, w + 1, m);
    assert p * (w + 1) == w * p + p;
    assert p * m == m * p;
  }

  /** Adds word by word: ADDS when the incoming flags have C clear, then ADCS. */
  function AddChain(m: nat, xs: seq<nat>, ys: seq<nat>, nzcv: nat): (r: (seq<nat>, nat))
    requires Modulus(m) && |xs| == |ys| && Fit(m, xs) && Fit(m, ys)
    ensures |r.0| == |xs| && Fit(m, r.0)
  {
    if |xs| == 0 then ([], nzcv)
    else
      var k := |xs| - 1;
      var (rs, f) := AddChain(m, xs[..k], ys[..k], nzcv);
      var (r, g) := AddFlags(m, xs[k], ys[k], Carry(f));
      (rs + [r], g)
  }

  /** Subtracts word by word: SUBS when the incoming flags have C set, then SBCS. */
  function SubChain(m: nat, xs: seq<nat>, ys: seq<nat>, nzcv: nat): (r: (seq<nat>, nat))
    requires Modulus(m) && |xs| == |ys| && Fit(m, xs) && Fit(m, ys)
    ensures |r.0| == |xs| && Fit(m, r.0)
  {
    if |xs| == 0 then ([], nzcv)
    else
      var k := |xs| - 1;
      var (rs, f) := SubChain(m, xs[..k], ys[..k], nzcv);
      var (r, g) := AddFlags(m, xs[k], Not(m, ys[k]), Carry(f));
      (rs + [r], g)
  }

  /** The chain computes the whole sum, its carry-out in C. */
  lemma {:induction false} AddChainExact(m: nat, xs: seq<nat>, ys: seq<nat>, nzcv: nat)
    requires Modulus(m) && |xs| == |ys| && Fit(m, xs) && Fit(m, ys)
    ensures var (rs, f) := AddChain(m, xs, ys, nzcv);
      Value(m, rs) + Carry(f) * Power(m, |xs|) == Value(m, xs) + Value(m, ys) + Carry(nzcv)
  {
    if |xs| > 0 {
      var k := |xs| - 1;
      AddChainExact(m, xs[..k], ys[..k], nzcv);
      var (rs, f) := AddChain(m, xs[..k], ys[..k], nzcv);
      AddExact(m, xs[k], ys[k], Carry(f));
      var (r, g) := AddFlags(m, xs[k], ys[k], Carry(f));
      assert (rs + [r])[..k] == rs;
      Carries(m, xs[k], ys[k], r, Carry(f), Carry(g), Power(m, k));
    }
  }

  lemma Carries(m: nat, x: nat, y: nat, r: nat, c: nat, d: nat, p: nat)
    requires r + d * m == x + y + c
    ensures r * p + d * (m * p) == x * p + y * p + c * p
  {
    assert (r + d * m) * p == r * p + d * (m * p);
  }

  /** What a subtraction that leaves flags f has borrowed from a word worth p. */
  function Borrowed(f: nat, p: nat): nat {
    if Carry(f) == 1 then 0 else p
  }

  /** The chain computes the whole difference; C is clear exactly when it borrows. */
  lemma {:induction false} SubChainExact(m: nat, xs: seq<nat>, ys: seq<nat>, nzcv: nat)
    requires Modulus(m) && |xs| == |ys| && Fit(m, xs) && Fit(m, ys)
    ensures var (rs, f) := SubChain(m, xs, ys, nzcv);
      Value(m, rs) - Borrowed(f, Power(m, |xs|)) == Value(m, xs) - Value(m, ys) - Borrowed(nzcv, 1)
  {
    if |xs| > 0 {
      var k := |xs| - 1;
      SubChainExact(m, xs[..k], ys[..k], nzcv);
      var (rs, f) := SubChain(m, xs[..k], ys[..k], nzcv);
      SubScaled(m, xs[k], ys[k], f, Power(m, k));
      ValueMore(m, rs, AddFlags(m, xs[k], Not(m, ys[k]), Carry(f)).0);
    }
  }

  /** One word's difference, in its place. */
  lemma SubScaled(m: nat, x: nat, y: nat, f: nat, p: nat)
    requires Modulus(m) && x < m && y < m
    ensures var (r, g) := AddFlags(m, x, Not(m, y), Carry(f));
      r * p - Borrowed(g, m * p) == x * p - y * p - Borrowed(f, p)
  {
    SubExact(m, x, y, Carry(f));
    var (r, g) := AddFlags(m, x, Not(m, y), Carry(f));
    Borrows(m, x, y, r, 1 - Carry(f), 1 - Carry(g), p);
  }

  lemma Borrows(m: nat, x: nat, y: nat, r: nat, c: nat, d: nat, p: nat)
    requires r - d * m == x - y - c
    ensures r * p - d * (m * p) == x * p - y * p - c * p
  {
    assert (r - d * m) * p == r * p - d * (m * p);
  }

  lemma ValueMore(m: nat, ws: seq<nat>, w: nat)
    requires Modulus(m) && Fit(m, ws) && w < m
    ensures Value(m, ws + [w]) == Value(m, ws) + w * Power(m, |ws|)
  {
    assert (ws + [w])[..|ws|] == ws;
  }

  /** A multi-word two's complement number. */
  function SignedValue(m: nat, ws: seq<nat>): int
    requires Modulus(m) && |ws| > 0 && Fit(m, ws)
  {
    Value(m, ws[..|ws| - 1]) + Int(m, ws[|ws| - 1]) * Power(m, |ws| - 1)
  }

  /** After a subtraction chain started with C set, the last flags compare the whole numbers: C unsigned, N != V
      signed. */
  lemma ChainCompares(m: nat, xs: seq<nat>, ys: seq<nat>)
    requires Modulus(m) && |xs| == |ys| > 0 && Fit(m, xs) && Fit(m, ys)
    ensures var f := SubChain(m, xs, ys, FLAG_C).1;
      (C(f) <==> Value(m, xs) >= Value(m, ys)) && (N(f) != V(f) <==> SignedValue(m, xs) < SignedValue(m, ys))
  {
    ChainUnsigned(m, xs, ys);
    ChainSigned(m, xs, ys, |xs| - 1);
  }

  lemma ChainSigned(m: nat, xs: seq<nat>, ys: seq<nat>, k: nat)
    requires Modulus(m) && |xs| == |ys| == k + 1 && Fit(m, xs) && Fit(m, ys)
    ensures var f := SubChain(m, xs, ys, FLAG_C).1; N(f) != V(f) <==> SignedValue(m, xs) < SignedValue(m, ys)
  {
    var f := SubChain(m, xs[..k], ys[..k], FLAG_C).1;
    var r := LowWords(m, xs[..k], ys[..k], f);
    TopDecides(m, r, Value(m, xs[..k]), Value(m, ys[..k]), Power(m, k), xs[k], ys[k], f);
    LastStep(m, xs, ys, k, f);
  }

  lemma LastStep(m: nat, xs: seq<nat>, ys: seq<nat>, k: nat, f: nat)
    requires Modulus(m) && |xs| == |ys| == k + 1 && Fit(m, xs) && Fit(m, ys)
    requires f == SubChain(m, xs[..k], ys[..k], FLAG_C).1
    ensures SubChain(m, xs, ys, FLAG_C).1 == AddFlags(m, xs[k], Not(m, ys[k]), Carry(f)).1
  {
  }

  lemma LowWords(m: nat, xs: seq<nat>, ys: seq<nat>, f: nat) returns (r: nat)
    requires Modulus(m) && |xs| == |ys| && Fit(m, xs) && Fit(m, ys) && f == SubChain(m, xs, ys, FLAG_C).1
    ensures r < Power(m, |xs|) && r - Borrowed(f, Power(m, |xs|)) == Value(m, xs) - Value(m, ys)
  {
    SubChainExact(m, xs, ys, FLAG_C);
    assert Carry(FLAG_C) == 1;
    r := Value(m, SubChain(m, xs, ys, FLAG_C).0);
  }

  lemma TopDecides(m: nat, r: nat, x: nat, y: nat, p: nat, a: nat, b: nat, f: nat)
    requires Modulus(m) && a < m && b < m && r < p && r - Borrowed(f, p) == x - y
    ensures var g := AddFlags(m, a, Not(m, b), Carry(f)).1;
      N(g) != V(g) <==> x + Int(m, a) * p < y + Int(m, b) * p
  {
    SubExact(m, a, b, Carry(f));
    SignOfDifference(x - y, Int(m, a), Int(m, b), 1 - Carry(f), p);
  }

  lemma ChainUnsigned(m: nat, xs: seq<nat>, ys: seq<nat>)
    requires Modulus(m) && |xs| == |ys| > 0 && Fit(m, xs) && Fit(m, ys)
    ensures C(SubChain(m, xs, ys, FLAG_C).1) <==> Value(m, xs) >= Value(m, ys)
  {
    var f := SubChain(m, xs, ys, FLAG_C).1;
    var r := LowWords(m, xs, ys, f);
  }

  lemma SignOfDifference(d: int, a: int, b: int, borrow: nat, p: nat)
    requires borrow <= 1 && p > 0 && 0 <= d + borrow * p < p
    ensures d + a * p - b * p < 0 <==> a - b - borrow < 0
  {
    var top := a - b - borrow;
    assert d + a * p - b * p == (d + borrow * p) + p * top;
    if top < 0 { MulMonoInt(p, top, -1); } else { MulMonoInt(p, 0, top); }
  }

  lemma MulMonoInt(p: nat, a: int, b: int)
    requires a <= b
    ensures p * a <= p * b
  {
    MulMono(p, a, b);
  }
}
