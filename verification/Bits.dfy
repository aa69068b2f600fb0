/** Machine integers as mathematical integers: two's-complement wrapping at
    8, 16, 32 and 64 bits, and bitwise operations on the infinite
    two's-complement expansion of an integer. */
module Bits {
  type Byte = x: int | 0 <= x < 256

  datatype Width = W8 | W16 | W32 | W64

  function Modulus(w: Width): (m: int)
    ensures m >= 256
  {
    match w
    case W8 => 0x100
    case W16 => 0x1_0000
    case W32 => 0x1_0000_0000
    case W64 => 0x1_0000_0000_0000_0000
  }

  function Half(w: Width): (h: int)
    ensures 2 * h == Modulus(w)
  {
    match w
    case W8 => 0x80
    case W16 => 0x8000
    case W32 => 0x8000_0000
    case W64 => 0x8000_0000_0000_0000
  }

  function Bound(w: Width): int {
    match w case W8 => 8 case W16 => 16 case W32 => 32 case W64 => 64
  }

  /** The wider of two widths; the first one when they are equal. */
  function Wider(a: Width, b: Width): (r: Width)
    ensures Bound(a) <= Bound(r) && Bound(b) <= Bound(r) && (r == a || r == b)
  {
    if Bound(b) > Bound(a) then b else a
  }

  predicate Fits(w: Width, x: int) {
    -Half(w) <= x < Half(w)
  }

  predicate FitsUnsigned(w: Width, x: int) {
    0 <= x < Modulus(w)
  }

  /** The representative of x modulo 2^w in the signed range. */
  function Wrap(w: Width, x: int): (r: int)
    ensures Fits(w, r)
  {
    match w
    case W8 => (x + 0x80) % 0x100 - 0x80
    case W16 => (x + 0x8000) % 0x1_0000 - 0x8000
    case W32 => (x + 0x8000_0000) % 0x1_0000_0000 - 0x8000_0000
    case W64 => (x + 0x8000_0000_0000_0000) % 0x1_0000_0000_0000_0000 - 0x8000_0000_0000_0000
  }

  /** The representative of x modulo 2^w in the unsigned range. */
  function Low(w: Width, x: int): (r: int)
    ensures FitsUnsigned(w, r)
  {
    match w
    case W8 => x % 0x100
    case W16 => x % 0x1_0000
    case W32 => x % 0x1_0000_0000
    case W64 => x % 0x1_0000_0000_0000_0000
  }

  lemma WrapFits(w: Width, x: int)
    requires Fits(w, x)
    ensures Wrap(w, x) == x
  {
    match w case W8 => case W16 => case W32 => case W64 =>
  }

  lemma LowFits(w: Width, x: int)
    requires FitsUnsigned(w, x)
    ensures Low(w, x) == x
  {
    match w case W8 => case W16 => case W32 => case W64 =>
  }

  /** Wrapping forgets exactly a multiple of the modulus. */
  lemma WrapQuotient(w: Width, x: int) returns (k: int)
    ensures x == Wrap(w, x) + k * Modulus(w)
  {
    k := (x + Half(w)) / Modulus(w);
    match w case W8 => case W16 => case W32 => case W64 =>
  }

  lemma LowQuotient(w: Width, x: int) returns (k: int)
    ensures x == Low(w, x) + k * Modulus(w)
  {
    k := x / Modulus(w);
    match w case W8 => case W16 => case W32 => case W64 =>
  }

  /** The signed representative is determined by the residue. */
  lemma WrapUnique(w: Width, x: int, r: int, k: int)
    requires Fits(w, r) && x == r + k * Modulus(w)
    ensures Wrap(w, x) == r
  {
    ModUnique(x + Half(w), Modulus(w), k, r + Half(w));
  }

  lemma WrapCongruent(w: Width, x: int, y: int, k: int)
    requires x == y + k * Modulus(w)
    ensures Wrap(w, x) == Wrap(w, y)
  {
    var j := WrapQuotient(w, y);
    assert x == Wrap(w, y) + (j + k) * Modulus(w);
    WrapUnique(w, x, Wrap(w, y), j + k);
  }

  /** How many times the modulus of w goes into the modulus of a width at
      least as wide. */
  function Ratio(w: Width, v: Width): (r: int)
    requires Bound(w) <= Bound(v)
    ensures Modulus(v) == r * Modulus(w)
  {
    Modulus(v) / Modulus(w)
  }

  /** Reducing at a wider width first changes nothing. */
  lemma WrapOfLow(w: Width, v: Width, x: int)
    requires Bound(w) <= Bound(v)
    ensures Wrap(w, Low(v, x)) == Wrap(w, x)
  {
    var k := LowQuotient(v, x);
    calc {
      x;
      Low(v, x) + k * Modulus(v);
      Low(v, x) + k * (Ratio(w, v) * Modulus(w));
      Low(v, x) + (k * Ratio(w, v)) * Modulus(w);
    }
    WrapCongruent(w, x, Low(v, x), k * Ratio(w, v));
  }

  lemma LowCongruent(v: Width, x: int, y: int, k: int)
    requires x == y + k * Modulus(v)
    ensures Low(v, x) == Low(v, y)
  {
    var q := LowQuotient(v, y);
    assert x == (q + k) * Modulus(v) + Low(v, y);
    ModUnique(x, Modulus(v), q + k, Low(v, y));
  }

  lemma LowSum(v: Width, a: int, b: int)
    ensures Low(v, Low(v, a) + Low(v, b)) == Low(v, a + b)
    ensures Low(v, Low(v, a) - Low(v, b)) == Low(v, a - b)
  {
    var i := LowQuotient(v, a);
    var j := LowQuotient(v, b);
    LowCongruent(v, a + b, Low(v, a) + Low(v, b), i + j);
    LowCongruent(v, a - b, Low(v, a) - Low(v, b), i - j);
  }

  lemma LowProduct(v: Width, a: int, b: int)
    ensures Low(v, Low(v, a) * Low(v, b)) == Low(v, a * b)
  {
    var i := LowQuotient(v, a);
    var j := LowQuotient(v, b);
    var m, p, q := Modulus(v), Low(v, a), Low(v, b);
    calc {
      a * b;
      (p + i * m) * (q + j * m);
      p * q + p * (j * m) + (i * m) * q + (i * m) * (j * m);
      { Regroup(p, q, i, j, m); }
      p * q + (p * j + i * q + i * j * m) * m;
    }
    LowCongruent(v, a * b, p * q, p * j + i * q + i * j * m);
  }

  lemma Regroup(p: int, q: int, i: int, j: int, m: int)
    ensures p * (j * m) + (i * m) * q + (i * m) * (j * m) == (p * j + i * q + i * j * m) * m
  {
    assert p * (j * m) == (p * j) * m;
    assert (i * m) * q == (i * q) * m;
    assert (i * m) * (j * m) == (i * j * m) * m;
  }

  /** Division and remainder that truncate toward zero, as C99 and the
      dialect define them. */
  function TruncDiv(a: int, b: int): (q: int)
    requires b != 0
  {
    if a >= 0 then a / b else -((-a) / b)
  }

  function TruncMod(a: int, b: int): (r: int)
    requires b != 0
  {
    a - TruncDiv(a, b) * b
  }

  lemma TruncDivBounds(a: int, b: int)
    requires b != 0
    ensures a >= 0 ==> 0 <= a - TruncDiv(a, b) * b < (if b > 0 then b else -b)
    ensures a < 0 ==> (if b > 0 then -b else b) < a - TruncDiv(a, b) * b <= 0
  {
    if a < 0 {
      var q := (-a) / b;
      assert -a == q * b + (-a) % b;
      assert TruncDiv(a, b) * b == -(q * b);
    } else {
      assert a == (a / b) * b + a % b;
    }
  }

  lemma Doubling(q: int, b: int)
    requires b >= 2 || b <= -2
    ensures q >= 0 && b >= 2 ==> q * b >= 2 * q
    ensures q >= 0 && b <= -2 ==> q * b <= -2 * q
    ensures q < 0 && b >= 2 ==> q * b <= 2 * q
    ensures q < 0 && b <= -2 ==> q * b >= -2 * q
  {
    if q >= 0 {
      if b >= 2 { assert q * (b - 2) >= 0; } else { assert q * (b + 2) <= 0; }
    } else {
      if b >= 2 { assert q * (b - 2) <= 0; } else { assert q * (b + 2) >= 0; }
    }
  }

  lemma TruncDivMagnitude(a: int, b: int)
    requires b != 0 && b != -1
    ensures a >= 0 ==> -a <= TruncDiv(a, b) <= a && 0 <= TruncMod(a, b) <= a
    ensures a < 0 ==> a <= TruncDiv(a, b) <= -a && a <= TruncMod(a, b) <= 0
    ensures a < 0 && TruncDiv(a, b) == -a ==> a == 0
  {
    TruncDivBounds(a, b);
    var q := TruncDiv(a, b);
    TruncDivSign(a, b);
    if b != 1 {
      Doubling(q, b);
    }
  }

  lemma TruncDivSign(a: int, b: int)
    requires b != 0
    ensures (a >= 0) == (b > 0) ==> TruncDiv(a, b) >= 0
    ensures (a >= 0) != (b > 0) ==> TruncDiv(a, b) <= 0
  {
    var n := if a >= 0 then a else -a;
    QuotientSign(n, b);
  }

  lemma QuotientSign(n: int, b: int)
    requires n >= 0 && b != 0
    ensures b > 0 ==> n / b >= 0
    ensures b < 0 ==> n / b <= 0
  {
    var q := n / b;
    assert n == q * b + n % b;
  }

  /** Away from -1 neither quotient nor remainder leaves the operands' range. */
  lemma TruncDivFits(w: Width, a: int, b: int)
    requires Fits(w, a) && Fits(w, b) && b != 0 && b != -1
    ensures Fits(w, TruncDiv(a, b)) && Fits(w, TruncMod(a, b))
  {
    TruncDivMagnitude(a, b);
  }

  // ---- bitwise operations ----

  predicate Settled(x: int) { x == 0 || x == -1 }

  function Magnitude(x: int): nat { if x >= 0 then x else -1 - x }

  /** Bitwise conjunction of two integers in two's complement. */
  function BitAnd(a: int, b: int): (r: int)
    decreases Magnitude(a) + Magnitude(b)
  {
    if Settled(a) && Settled(b) then (if a == -1 && b == -1 then -1 else 0)
    else 2 * BitAnd(a / 2, b / 2) + (if a % 2 == 1 && b % 2 == 1 then 1 else 0)
  }

  /** Bitwise complement, and disjunction by De Morgan. */
  function BitNot(a: int): int { -1 - a }

  function BitOr(a: int, b: int): int { BitNot(BitAnd(BitNot(a), BitNot(b))) }

  function BitXor(a: int, b: int): int { BitAnd(BitOr(a, b), BitNot(BitAnd(a, b))) }

  function Pow2(k: nat): (p: int)
    ensures p >= 1
  {
    if k == 0 then 1 else 2 * Pow2(k - 1)
  }

  lemma {:induction false} BitAndSigned(k: nat, a: int, b: int)
    requires -Pow2(k) <= a < Pow2(k) && -Pow2(k) <= b < Pow2(k)
    ensures -Pow2(k) <= BitAnd(a, b) < Pow2(k)
    decreases k
  {
    if Settled(a) && Settled(b) {
    } else if k > 0 {
      BitAndSigned(k - 1, a / 2, b / 2);
    }
  }

  lemma {:induction false} BitAndUnsigned(a: int, b: int)
    requires a >= 0 && b >= 0
    ensures 0 <= BitAnd(a, b) <= a && BitAnd(a, b) <= b
    decreases a + b
  {
    if !(Settled(a) && Settled(b)) {
      BitAndUnsigned(a / 2, b / 2);
    }
  }

  /** Masking with 2^k - 1 is reduction modulo 2^k. */
  lemma {:induction false} BitAndMask(x: int, k: nat)
    requires x >= 0
    ensures BitAnd(x, Pow2(k) - 1) == x % Pow2(k)
    decreases k
  {
    if k == 0 {
      BitAndUnsigned(x, 0);
    } else {
      var m := Pow2(k - 1);
      BitAndMask(x / 2, k - 1);
      assert (Pow2(k) - 1) / 2 == m - 1;
      HalveMod(x, m);
      if x == 0 && k == 1 {
        assert BitAnd(x / 2, 0) == 0;
      }
    }
  }

  lemma HalveMod(x: int, m: int)
    requires x >= 0 && m >= 1
    ensures x % (2 * m) == 2 * ((x / 2) % m) + x % 2
  {
    var q, r := (x / 2) / m, (x / 2) % m;
    assert x / 2 == q * m + r;
    assert x == q * (2 * m) + (2 * r + x % 2);
    ModUnique(x, 2 * m, q, 2 * r + x % 2);
  }

  lemma ModUnique(x: int, m: int, q: int, r: int)
    requires m > 0 && 0 <= r < m && x == q * m + r
    ensures x % m == r && x / m == q
  {
    var p := x / m;
    assert x == p * m + x % m;
    assert (q - p) * m == x % m - r by { Distribute(q, p, m); }
    NoSmallMultiple(q - p, m);
  }

  lemma Distribute(q: int, p: int, m: int)
    ensures (q - p) * m == q * m - p * m
  {
  }

  lemma NoSmallMultiple(k: int, m: int)
    requires m > 0 && -m < k * m < m
    ensures k == 0
  {
  }

  lemma Pow2Doubled(k: nat, v: int)
    requires Pow2(k) == v
    ensures Pow2(2 * k) == v * v
  {
    Pow2Add(k, k);
  }

  lemma HalfIsPow2(w: Width)
    ensures Half(w) == Pow2(Bound(w) - 1) && Modulus(w) == Pow2(Bound(w))
  {
    assert Pow2(4) == 0x10 by { assert Pow2(2) == 4; }
    Pow2Doubled(4, 0x10);
    Pow2Doubled(8, 0x100);
    Pow2Doubled(16, 0x1_0000);
    Pow2Doubled(32, 0x1_0000_0000);
    assert Pow2(Bound(w)) == 2 * Pow2(Bound(w) - 1);
  }

  lemma {:induction false} Pow2Add(a: nat, b: nat)
    ensures Pow2(a + b) == Pow2(a) * Pow2(b)
  {
    if a > 0 {
      Pow2Add(a - 1, b);
      assert Pow2(a + b) == 2 * Pow2(a + b - 1);
    }
  }

  /** Bitwise conjunction and disjunction stay inside a signed width. */
  lemma BitwiseFits(w: Width, a: int, b: int)
    requires Fits(w, a) && Fits(w, b)
    ensures Fits(w, BitAnd(a, b)) && Fits(w, BitOr(a, b)) && Fits(w, BitNot(a))
  {
    HalfIsPow2(w);
    BitAndSigned(Bound(w) - 1, a, b);
    BitAndSigned(Bound(w) - 1, BitNot(a), BitNot(b));
  }

  // ---- what the bitwise operations and widths are ----

  /** Bit i of the two's-complement expansion of x. */
  function Bit(x: int, i: nat): int { x / Pow2(i) % 2 }

  lemma BitShift(x: int, i: nat)
    ensures Bit(x, 0) == x % 2 && Bit(x, i + 1) == Bit(x / 2, i)
  {
    var p := Pow2(i);
    var h := x / 2;
    var q, r := h / p, h % p;
    assert h == q * p + r;
    assert x == q * (2 * p) + (2 * r + x % 2);
    ModUnique(x, 2 * p, q, 2 * r + x % 2);
  }

  lemma {:induction false} BitAndBits(a: int, b: int, i: nat)
    ensures Bit(BitAnd(a, b), i) == if Bit(a, i) == 1 && Bit(b, i) == 1 then 1 else 0
    decreases i
  {
    BitShift(a, if i == 0 then 0 else i - 1);
    BitShift(b, if i == 0 then 0 else i - 1);
    BitShift(BitAnd(a, b), if i == 0 then 0 else i - 1);
    AndHalves(a, b);
    if i > 0 { BitAndBits(a / 2, b / 2, i - 1); }
  }

  lemma AndHalves(a: int, b: int)
    ensures BitAnd(a, b) / 2 == BitAnd(a / 2, b / 2)
    ensures BitAnd(a, b) % 2 == if a % 2 == 1 && b % 2 == 1 then 1 else 0
  {
  }

  lemma {:induction false} BitNotBits(a: int, i: nat)
    ensures Bit(BitNot(a), i) == 1 - Bit(a, i)
    decreases i
  {
    BitShift(a, if i == 0 then 0 else i - 1);
    BitShift(BitNot(a), if i == 0 then 0 else i - 1);
    assert BitNot(a) / 2 == BitNot(a / 2);
    if i > 0 { BitNotBits(a / 2, i - 1); }
  }

  /** Every bit of AND, OR, XOR and NOT is that operation on the bits. */
  lemma BitLaws(a: int, b: int, i: nat)
    ensures 0 <= Bit(a, i) <= 1 && 0 <= Bit(b, i) <= 1
    ensures Bit(BitAnd(a, b), i) == 1 <==> Bit(a, i) == 1 && Bit(b, i) == 1
    ensures Bit(BitOr(a, b), i) == 1 <==> Bit(a, i) == 1 || Bit(b, i) == 1
    ensures Bit(BitXor(a, b), i) == 1 <==> Bit(a, i) != Bit(b, i)
    ensures Bit(BitNot(a), i) == 1 <==> Bit(a, i) == 0
  {
    hide BitAnd;
    BitAndBits(a, b, i);
    BitNotBits(a, i);
    BitNotBits(b, i);
    BitAndBits(BitNot(a), BitNot(b), i);
    BitNotBits(BitAnd(BitNot(a), BitNot(b)), i);
    BitNotBits(BitAnd(a, b), i);
    BitAndBits(BitOr(a, b), BitNot(BitAnd(a, b)), i);
  }

  /** The bits of an integer determine it. */
  lemma {:induction false} BitsDecide(a: int, b: int)
    requires forall i: nat :: Bit(a, i) == Bit(b, i)
    ensures a == b
    decreases Magnitude(a) + Magnitude(b)
  {
    BitShift(a, 0);
    BitShift(b, 0);
    assert Bit(a, 0) == Bit(b, 0);
    if !(Settled(a) && Settled(b)) {
      forall i: nat
        ensures Bit(a / 2, i) == Bit(b / 2, i)
      {
        BitShift(a, i);
        BitShift(b, i);
        assert Bit(a, i + 1) == Bit(b, i + 1);
      }
      BitsDecide(a / 2, b / 2);
    }
  }

  /** How many bits each width has. */
  lemma WidthBits(w: Width, bits: nat)
    requires bits == match w case W8 => 8 case W16 => 16 case W32 => 32 case W64 => 64
    ensures Bound(w) == bits && Modulus(w) == Pow2(bits) && Half(w) == Pow2(bits - 1)
  {
    HalfIsPow2(w);
  }

  /** Wrapping changes a number by a multiple of 2^bits, into the signed or the
      unsigned range of that many bits. */
  lemma WidthLaws(w: Width, x: int, bits: nat) returns (j: int, k: int)
    requires bits == match w case W8 => 8 case W16 => 16 case W32 => 32 case W64 => 64
    ensures x == Wrap(w, x) + j * Pow2(bits) && -Pow2(bits - 1) <= Wrap(w, x) < Pow2(bits - 1)
    ensures x == Low(w, x) + k * Pow2(bits) && 0 <= Low(w, x) < Pow2(bits)
  {
    hide Wrap, Low, Pow2, Modulus, Half;
    WidthBits(w, bits);
    j := WrapQuotient(w, x);
    k := LowQuotient(w, x);
  }

  /** DIV and MOD truncate: quotient times divisor plus remainder is the
      dividend, the remainder is smaller than the divisor and has the sign of
      the dividend. */
  lemma TruncLaws(a: int, b: int)
    requires b != 0
    ensures a == TruncDiv(a, b) * b + TruncMod(a, b)
    ensures (if TruncMod(a, b) < 0 then -TruncMod(a, b) else TruncMod(a, b)) < if b < 0 then -b else b
    ensures a >= 0 ==> TruncMod(a, b) >= 0
    ensures a <= 0 ==> TruncMod(a, b) <= 0
  {
    TruncDivBounds(a, b);
  }
}
