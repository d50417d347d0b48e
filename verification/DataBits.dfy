/** Data processing on operands: logical operations, shifts, bitfields, division, checksums and products. */
module DataBits {
  import opened Words
  import opened Instructions
  import opened Bitfield
  import opened WordBits
  import Flags

  function Width(sf: bool): nat { if sf then B64 else B32 }
  function BitWidth(sf: bool): nat { if sf then 64 else 32 }

  lemma Widths(sf: bool)
    ensures Pow2(BitWidth(sf)) == Width(sf)
  {
    Pow64();
  }

  // ---- logical operations and shifts -------------------------------------------------------

  function LogicBits(kind: Logic, a: Bits, b: Bits): Bits {
    match kind
    case LAnd => And(a, b)
    case LOrr => Or(a, b)
    case LEor => Xor(a, b)
  }

  function LogicOf(kind: Logic, a: Word, b: Word): Word {
    WordOf(LogicBits(kind, BitsOf(a), BitsOf(b)))
  }

  function LogicFlags(m: nat, r: nat): nat {
    Flags.Pack(Flags.Top(m, r), r == 0, false, false)
  }

  /** The low 64 or 32 bits rotated right. */
  function RotateW(sf: bool, a: Word, k: nat): (r: Word)
    ensures r < Width(sf)
  {
    var b := Rotate(BitWidth(sf), BitsOf(a), k);
    LowIs(BitWidth(sf), b);
    assert Low(BitWidth(sf), b) == b;
    Widths(sf);
    WordOf(b)
  }

  /** A shifted operand: left, right, arithmetic right, rotated. */
  function ShiftOp(sf: bool, v: Word, sh: nat, amt: nat): (r: nat)
    ensures r < Width(sf)
  {
    var m := Width(sf);
    var x, p := v % m, Pow2(amt);
    Quotient(x, p, m);
    if sh == 0 then x * p % m else if sh == 1 then x / p else if sh == 2 then Flags.Int(m, x) / p % m
    else RotateW(sf, v, amt)
  }

  lemma Quotient(x: nat, p: nat, m: nat)
    requires p > 0 && x < m
    ensures 0 <= x / p < m
  {
    MulMono(m, 1, p);
    if x / p >= m {
      MulMono(p, m, x / p);
    }
  }

  // ---- bitfields, with the masks they were decoded with ---------------------------------------

  function FieldUnsigned(size: nat, a: Bits, w: Bits, t: Bits, r: nat): Bits
    requires 0 < size <= 64
  {
    And(And(Rotate(size, a, r), w), t)
  }

  function FieldSigned(size: nat, a: Bits, w: Bits, t: Bits, r: nat, s: nat): Bits
    requires 0 < size <= 64 && s < size
  {
    var bot, top := And(Rotate(size, a, r), w), Asr(size, Shl(a, size - 1 - s), size - 1);
    Low(size, Or(And(top, Not(t)), And(bot, t)))
  }

  function FieldInserted(size: nat, c: Bits, a: Bits, w: Bits, t: Bits, r: nat): Bits
    requires 0 < size <= 64
  {
    var d := Low(size, c);
    var bot := Or(And(d, Not(w)), And(Rotate(size, a, r), w));
    Low(size, Or(And(d, Not(t)), And(bot, t)))
  }

  /** The low register shifted right, and the high one filling up. */
  function Extracted(size: nat, a: Bits, b: Bits, k: nat): Bits
    requires size <= 64 && k < size
  {
    Low(size, Or(Shr(Low(size, b), k), Shl(a, size - k)))
  }

  // ---- one register -----------------------------------------------------------------------------

  function Flipped(size: nat, a: Bits): Bits
    requires size <= 64
  {
    seq(64, j requires 0 <= j < 64 => j < size && a[size - 1 - j])
  }

  /** The bytes reversed within each unit of u bytes. */
  function BytesFlipped(u: Unit, a: Bits): Bits {
    seq(64, j requires 0 <= j < 64 => a[8 * (j / 8 / u * u + (u - 1 - j / 8 % u)) + j % 8])
  }

  function EvenBytes(): Bits { seq(64, j requires 0 <= j < 64 => j / 8 % 2 == 0) }

  /** Byte reversal as it is computed: a primitive on whole registers, put together for smaller units. */
  function FlipUnits(sf: bool, u: Unit, a: Bits): Bits {
    if u == 8 || (u == 4 && !sf) then BytesFlipped(u, Low(BitWidth(sf), a))
    else if u == 4 then
      var v := BytesFlipped(8, a);
      Or(Shl(v, 32), Shr(v, 32))
    else
      var v := Low(BitWidth(sf), a);
      Or(Shl(And(v, EvenBytes()), 8), And(Shr(v, 8), EvenBytes()))
  }

  /** The zeros above the highest bit set. */
  function ZerosAbove(sf: bool, x: nat): (n: nat)
    requires x < Width(sf)
    ensures n <= BitWidth(sf)
  {
    HighBelow(sf, x);
    BitWidth(sf) - 1 - HighBit(x)
  }

  lemma HighBelow(sf: bool, x: nat)
    requires x < Width(sf)
    ensures HighBit(x) < BitWidth(sf)
  {
    Widths(sf);
    if HighBit(x) >= BitWidth(sf) {
      Pow2Mono(BitWidth(sf), HighBit(x));
    }
  }

  /** The bits that differ from the next higher one, the top bit aside. */
  function Changes(size: nat, a: Bits): Bits
    requires 0 < size <= 64
  {
    And(Xor(Low(size, a), Shr(Low(size, a), 1)), Ones(size - 1))
  }

  // ---- two and three registers --------------------------------------------------------------------

  /** Division that rounds toward zero. */
  function Truncated(x: int, y: int): int
    requires y != 0
  {
    if (x < 0) == (y < 0) then Magnitude(x) / Magnitude(y) else -(Magnitude(x) / Magnitude(y))
  }

  function Magnitude(x: int): nat { if x < 0 then -x else x }

  function DivSigned(m: nat, a: nat, b: nat): (q: nat)
    requires Flags.Modulus(m) && a < m && b < m
    ensures q < m
  {
    if b == 0 then 0 else Truncated(Flags.Int(m, a), Flags.Int(m, b)) % m
  }

  const CRC_IEEE: Word := 0xedb8_8320
  const CRC_CASTAGNOLI: Word := 0x82f6_3b78

  /** n steps of the bit-serial checksum. */
  function CrcBits(poly: Word, acc: Word, n: nat): Word
    decreases n
  {
    if n == 0 then acc
    else CrcBits(poly, if acc % 2 == 1 then XorW(acc / 2, poly) else acc / 2, n - 1)
  }

  /** The checksum of n bytes of v. */
  function CrcBytes(poly: Word, acc: Word, v: Word, n: nat): Word
    decreases n
  {
    if n == 0 then acc else CrcBytes(poly, CrcBits(poly, XorW(acc, v % 256), 8), v / 256, n - 1)
  }

  /** The upper half of a product; for signed operands corrected by what each sign adds to the unsigned one. */
  function High(signed: bool, a: Word, b: Word): Word {
    ProductFits(a, b);
    var hi := a * b / B64;
    if signed then (hi - (if Flags.Top(B64, a) then b else 0) - if Flags.Top(B64, b) then a else 0) % B64 else hi
  }

  lemma ProductFits(a: Word, b: Word)
    ensures 0 <= a * b / B64 < B64
  {
    MulMono(a, b, B64 - 1);
    MulMono(B64 - 1, a, B64 - 1);
  }

  function Signed(signed: bool, x: Word): int { if signed then Flags.Int(B32, x % B32) else x % B32 }

  /** Division of unsigned numbers; by zero, zero. */
  function DivUnsigned(a: Word, b: Word): Word {
    if b == 0 then 0
    else
      Quotient(a, b, B64);
      a / b
  }

  function Complemented(m: nat, inverted: bool, y: nat): (r: nat)
    requires y < m
    ensures r < m
  {
    if inverted then Flags.Not(m, y) else y
  }

  function Accumulated(m: nat, minus: bool, c: nat, product: int): Word
    requires Flags.Modulus(m)
  {
    (if minus then c - product else c + product) % m
  }

  function SignsAbove(sf: bool, a: Bits): nat {
    var x := WordOf(Changes(BitWidth(sf), a));
    ChangesFit(sf, a);
    ZerosAbove(sf, x) - 1
  }

  lemma ChangesFit(sf: bool, a: Bits)
    ensures WordOf(Changes(BitWidth(sf), a)) < Width(sf) && HighBit(WordOf(Changes(BitWidth(sf), a))) < BitWidth(sf) - 1
  {
    var n, b := BitWidth(sf) - 1, Changes(BitWidth(sf), a);
    LowIs(n, b);
    assert Low(n, b) == b;
    Widths(sf);
    assert Pow2(n + 1) == 2 * Pow2(n);
    if HighBit(Val(b)) >= n {
      Pow2Mono(n, HighBit(Val(b)));
    }
  }
}
