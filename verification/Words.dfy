/** Machine words and bytes as ranges of int, and little-endian conversion. */
module Words {
  datatype Option<+T> = None | Some(value: T)

  const B64 := 0x1_0000_0000_0000_0000
  const B32 := 0x1_0000_0000

  type byte = x: int | 0 <= x < 256
  type Word = x: int | 0 <= x < B64

  /** The sizes of a guest access or a vector lane, in bytes. */
  predicate AccessSize(n: nat) {
    n == 1 || n == 2 || n == 4 || n == 8
  }

  function Pow2(k: nat): (r: nat)
    ensures r > 0
  {
    if k == 0 then 1 else 2 * Pow2(k - 1)
  }

  lemma {:induction false} Pow2Sum(a: nat, b: nat)
    ensures Pow2(a + b) == Pow2(a) * Pow2(b)
  {
    if a > 0 {
      Pow2Sum(a - 1, b);
      Assoc(2, Pow2(a - 1), Pow2(b));
    }
  }

  lemma {:induction false} Pow2Mono(a: nat, b: nat)
    requires a <= b
    ensures Pow2(a) <= Pow2(b)
  {
    if a < b {
      Pow2Mono(a, b - 1);
    }
  }

  /** k * n, by repeated addition. */
  function Times(k: nat, n: nat): nat {
    if k == 0 then 0 else Times(k - 1, n) + n
  }

  lemma {:induction false} TimesIs(k: nat, n: nat)
    ensures Times(k, n) == k * n == n * k
  {
    if k > 0 {
      TimesIs(k - 1, n);
      assert k * n == (k - 1) * n + n;
    }
  }

  lemma {:induction false} TimesMono(j: nat, k: nat, n: nat)
    requires j <= k
    ensures Times(j, n) <= Times(k, n)
  {
    if j < k {
      TimesMono(j, k - 1, n);
    }
  }

  lemma After<T>(x: T, l: seq<T>, j: nat)
    requires j < |l|
    ensures ([x] + l)[1 + j] == l[j]
  {
  }

  /** The number a little-endian byte string denotes. */
  function FromLE(bs: seq<byte>): (v: nat)
    ensures v < Pow256(|bs|)
  {
    if |bs| == 0 then 0 else bs[0] + 256 * FromLE(bs[1..])
  }

  /** The low n bytes of v, least significant first. */
  function ToLE(v: nat, n: nat): (bs: seq<byte>)
    ensures |bs| == n
  {
    if n == 0 then [] else [v % 256] + ToLE(v / 256, n - 1)
  }

  function Pow256(n: nat): (r: nat)
    ensures r > 0
  {
    if n == 0 then 1 else 256 * Pow256(n - 1)
  }

  lemma {:induction false} Pow256Mono(m: nat, n: nat)
    requires m <= n
    ensures Pow256(m) <= Pow256(n)
  {
    if m < n {
      Pow256Mono(m, n - 1);
    }
  }

  lemma Pow256Words()
    ensures Pow256(1) == 0x100 && Pow256(2) == 0x1_0000 && Pow256(4) == B32 && Pow256(8) == B64
  {
    assert Pow256(2) == 0x1_0000;
    assert Pow256(4) == B32;
    assert Pow256(6) == 0x1_0000_0000_0000;
  }

  lemma {:induction false} FromToLE(v: nat, n: nat)
    ensures FromLE(ToLE(v, n)) == v % Pow256(n)
  {
    if n > 0 {
      FromToLE(v / 256, n - 1);
      assert ToLE(v, n)[1..] == ToLE(v / 256, n - 1);
      ModSplit(v, Pow256(n - 1));
    }
  }

  lemma ModSplit(v: nat, p: nat)
    requires p > 0
    ensures v % (256 * p) == v % 256 + 256 * (v / 256 % p)
  {
    var w, u := v / 256, v % 256;
    var q, r := w / p, w % p;
    assert w == p * q + r;
    Regroup(v, 256, p, w, u, q, r);
    DivModUnique(v, 256 * p, q, 256 * r + u);
  }

  lemma MulMono(d: nat, a: int, b: int)
    requires a <= b
    ensures d * a <= d * b
  {
    assert d * b == d * a + d * (b - a);
  }

  lemma DivModUnique(x: int, d: int, q: int, r: int)
    requires d > 0 && x == d * q + r && 0 <= r < d
    ensures x / d == q && x % d == r
  {
    var q', r' := x / d, x % d;
    QuotientsAgree(d, q, r, q', r');
  }

  lemma QuotientsAgree(d: int, q: int, r: int, q': int, r': int)
    requires d > 0 && d * q + r == d * q' + r' && 0 <= r < d && 0 <= r' < d
    ensures q == q' && r == r'
  {
    assert d * (q' + 1) == d * q' + d && d * (q + 1) == d * q + d;
    if q' < q {
      MulMono(d, q' + 1, q);
    } else if q < q' {
      MulMono(d, q + 1, q');
    }
  }

  lemma {:induction false} ToFromLE(bs: seq<byte>)
    ensures ToLE(FromLE(bs), |bs|) == bs
  {
    if |bs| > 0 {
      ToFromLE(bs[1..]);
      assert FromLE(bs) / 256 == FromLE(bs[1..]);
    }
  }

  lemma {:induction false} FromLEZeros(bs: seq<byte>)
    requires forall i :: 0 <= i < |bs| ==> bs[i] == 0
    ensures FromLE(bs) == 0
  {
    if |bs| > 0 {
      FromLEZeros(bs[1..]);
    }
  }

  /** Splitting a byte string splits the number. */
  lemma {:induction false} FromLESnoc(bs: seq<byte>, b: byte)
    ensures FromLE(bs + [b]) == FromLE(bs) + b * Pow256(|bs|)
  {
    if |bs| == 0 {
      assert (bs + [b])[1..] == [];
    } else {
      FromLESnoc(bs[1..], b);
      assert (bs + [b])[1..] == bs[1..] + [b];
      assert 256 * (b * Pow256(|bs| - 1)) == b * Pow256(|bs|);
    }
  }

  lemma Assoc(a: int, b: int, c: int)
    ensures (a * b) * c == a * (b * c)
  {
  }

  lemma {:induction false} FromLEConcat(a: seq<byte>, b: seq<byte>)
    ensures FromLE(a + b) == FromLE(a) + Pow256(|a|) * FromLE(b)
  {
    if |a| == 0 {
      assert a + b == b;
    } else {
      FromLEConcat(a[1..], b);
      ConcatStep(a, b, Pow256(|a| - 1), FromLE(b));
    }
  }

  lemma ConcatStep(a: seq<byte>, b: seq<byte>, p: nat, v: nat)
    requires |a| > 0 && FromLE(a[1..] + b) == FromLE(a[1..]) + p * v
    ensures FromLE(a + b) == FromLE(a) + (256 * p) * v
  {
    var c := a + b;
    assert c[1..] == a[1..] + b && c[0] == a[0];
    Assoc(256, p, v);
    assert FromLE(c) == a[0] + 256 * FromLE(c[1..]);
  }

  /** Dropping k bytes is shifting right by 8k; keeping k bytes is masking to 8k bits. */
  lemma ShiftMask(bs: seq<byte>, k: nat)
    requires k <= |bs|
    ensures FromLE(bs[k..]) == FromLE(bs) / Pow256(k)
    ensures FromLE(bs[..k]) == FromLE(bs) % Pow256(k)
  {
    var lo, hi := bs[..k], bs[k..];
    assert lo + hi == bs;
    FromLEConcat(lo, hi);
    ShiftMaskAux(FromLE(bs), Pow256(k), FromLE(hi), FromLE(lo));
  }

  lemma ShiftMaskAux(x: nat, p: nat, q: nat, r: nat)
    requires p > 0 && x == r + p * q && r < p
    ensures q == x / p && r == x % p
  {
    DivModUnique(x, p, q, r);
  }

  /** Byte k of v. */
  function ByteOf(v: nat, k: nat): byte {
    v / Pow256(k) % 256
  }

  lemma {:induction false} ToLEAt(v: nat, n: nat, k: nat)
    requires k < n
    ensures ToLE(v, n)[k] == ByteOf(v, k)
  {
    if k > 0 {
      ToLEAt(v / 256, n - 1, k - 1);
      DivDiv(v, 256, Pow256(k - 1));
    }
  }

  lemma ToLEBytes(v: nat, n: nat)
    ensures forall k :: 0 <= k < n ==> ToLE(v, n)[k] == ByteOf(v, k)
  {
    forall k | 0 <= k < n ensures ToLE(v, n)[k] == ByteOf(v, k) {
      ToLEAt(v, n, k);
    }
  }

  lemma DivDiv(v: nat, a: nat, b: nat)
    requires a > 0 && b > 0
    ensures a * b > 0 && v / a / b == v / (a * b)
  {
    MulMono(a, 1, b);
    var w, u := v / a, v % a;
    var q, r := w / b, w % b;
    assert w == b * q + r;
    MulMono(a, r + 1, b);
    Regroup(v, a, b, w, u, q, r);
    DivModUnique(v, a * b, q, a * r + u);
  }

  lemma Regroup(v: nat, a: nat, b: nat, w: nat, u: nat, q: nat, r: nat)
    requires v == a * w + u && w == b * q + r
    ensures v == (a * b) * q + (a * r + u)
    ensures a * (r + 1) == a * r + a
  {
    assert a * (b * q + r) == a * (b * q) + a * r;
    assert a * (b * q) == (a * b) * q;
  }

  // ---- sequences ------------------------------------------------------------------------

  lemma TwoParts<T>(a: seq<T>, b: seq<T>)
    ensures (a + b)[..|a|] == a && (a + b)[|a|..] == b
  {
  }
}
