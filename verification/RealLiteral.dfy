/** The layout of a REAL literal from its shortest digits and decimal exponent
    (pas_real_literal_text in runtime/json_helpers.c). */
module RealLiteral {
  import opened TextSpec

  const DOT: Byte := 46
  const MINUS: Byte := 45
  const ZERO: Byte := 48
  const CapE: Byte := 69

  predicate Digits(t: Text) { t != [] && forall i :: 0 <= i < |t| ==> IsDigit(t[i]) }

  /** The dialect's real literal: digit+ . digit+ [E [-] digit+], after an
      optional minus sign. exp is 0 and hasExp false without an exponent part. */
  datatype Literal = Literal(negative: bool, whole: Text, frac: Text, hasExp: bool, exp: int)

  predicate Grammatical(l: Literal) { Digits(l.whole) && Digits(l.frac) && (!l.hasExp ==> l.exp == 0) }

  function Exponent(e: int): Text { if e < 0 then [MINUS] + Decimal(-e) else Decimal(e) }

  function Sign(negative: bool): Text { if negative then [MINUS] else [] }

  function Spelled(l: Literal): Text {
    Sign(l.negative) + l.whole + [DOT] + l.frac + (if l.hasExp then [CapE] + Exponent(l.exp) else [])
  }

  /** 10^e as a rational number. */
  function TenTo(e: int): real
    decreases if e < 0 then -e else e
  {
    if e == 0 then 1.0 else if e > 0 then 10.0 * TenTo(e - 1) else TenTo(e + 1) / 10.0
  }

  /** The digits d read as a whole number and scaled by 10^e. */
  function Scaled(d: Text, e: int): real { Value(d, 10) as real * TenTo(e) }

  /** The number a literal denotes. */
  function Denoted(l: Literal): real {
    (if l.negative then -1.0 else 1.0) * Scaled(l.whole + l.frac, l.exp - |l.frac|)
  }

  datatype Reading = NotReal | Real(literal: Literal)

  /** Reads a whole text as a real literal of the dialect. */
  function ReadReal(t: Text): Reading {
    var negative := t != [] && t[0] == MINUS;
    ReadUnsigned(negative, if negative then t[1..] else t)
  }

  function ReadUnsigned(negative: bool, u: Text): Reading {
    var whole := Run(u, 10);
    var v := u[|whole|..];
    if whole == [] || v == [] || v[0] != DOT then NotReal
    else ReadFraction(negative, whole, v[1..])
  }

  function ReadFraction(negative: bool, whole: Text, v: Text): Reading {
    var frac := Run(v, 10);
    var w := v[|frac|..];
    if frac == [] then NotReal
    else if w == [] then Real(Literal(negative, whole, frac, false, 0))
    else if w[0] != CapE then NotReal
    else ReadExponent(negative, whole, frac, w[1..])
  }

  function ReadExponent(negative: bool, whole: Text, frac: Text, w: Text): Reading {
    var below := w != [] && w[0] == MINUS;
    var x := if below then w[1..] else w;
    var digits := Run(x, 10);
    if digits == [] || digits != x then NotReal
    else Real(Literal(negative, whole, frac, true, Signed(below, Value(digits, 10))))
  }

  function Zeros(n: nat): (z: Text)
    ensures |z| == n && forall i :: 0 <= i < n ==> z[i] == ZERO
  {
    seq(n, i => ZERO)
  }

  /** The layout: plain for exponents -5 to 15, scientific otherwise. */
  function Layout(negative: bool, d: Text, exp10: int): Literal
    requires Digits(d)
  {
    var n := |d|;
    if -5 <= exp10 < 0 then Literal(negative, [ZERO], Zeros(-exp10 - 1) + d, false, 0)
    else if 0 <= exp10 < 16 then
      if n > exp10 + 1 then Literal(negative, d[..exp10 + 1], d[exp10 + 1..], false, 0)
      else Literal(negative, d + Zeros(exp10 + 1 - n), [ZERO], false, 0)
    else Literal(negative, d[..1], if n > 1 then d[1..] else [ZERO], true, exp10)
  }

  // ---- values ----

  lemma {:induction false} ValueConcat(a: Text, b: Text)
    ensures Value(a + b, 10) == Value(a, 10) * Power(10, |b|) + Value(b, 10)
  {
    if b == [] {
      assert a + b == a;
    } else {
      var c, n := b[..|b| - 1], |b| - 1;
      ValueConcat(a, c);
      assert (a + b)[..|a + b| - 1] == a + c;
      Rescale(Value(a, 10), Power(10, n));
      assert Value(a + b, 10) == (Value(a, 10) * Power(10, n) + Value(c, 10)) * 10 + DigitValue(b[n]);
    }
  }

  lemma Rescale(m: nat, p: nat)
    ensures (m * p) * 10 == m * (10 * p)
  {
  }

  lemma {:induction false} ValueOfZeros(z: Text)
    requires forall i :: 0 <= i < |z| ==> z[i] == ZERO
    ensures Value(z, 10) == 0
  {
    if z != [] { ValueOfZeros(z[..|z| - 1]); }
  }

  lemma {:induction false} TenShift(e: int, k: nat)
    ensures TenTo(e) == Power(10, k) as real * TenTo(e - k)
  {
    if k > 0 {
      TenShift(e, k - 1);
      assert TenTo(e - k + 1) == 10.0 * TenTo(e - k);
      Regroup(Power(10, k - 1), TenTo(e - k));
    }
  }

  lemma Regroup(p: nat, x: real)
    ensures p as real * (10.0 * x) == (10 * p) as real * x
  {
  }

  /** Leading zeros do not change a number, trailing zeros only shift it. */
  lemma Leading(z: Text, d: Text, e: int)
    requires forall i :: 0 <= i < |z| ==> z[i] == ZERO
    ensures Scaled(z + d, e) == Scaled(d, e)
  {
    ValueConcat(z, d);
    ValueOfZeros(z);
  }

  lemma Trailing(d: Text, y: Text, e: int)
    requires forall i :: 0 <= i < |y| ==> y[i] == ZERO
    ensures Scaled(d + y, e - |y|) == Scaled(d, e)
  {
    hide Value, Power, TenTo;
    ValueConcat(d, y);
    ValueOfZeros(y);
    TenShift(e, |y|);
    Commute(Value(d, 10), Power(10, |y|), TenTo(e - |y|));
  }

  lemma Commute(m: nat, p: nat, x: real)
    ensures (m * p) as real * x == m as real * (p as real * x)
  {
  }

  /** The layout of any digits and exponent is a literal of the dialect that
      denotes exactly digits * 10^(exp10 - count + 1). */
  lemma LayoutExact(negative: bool, d: Text, exp10: int)
    requires Digits(d)
    ensures Grammatical(Layout(negative, d, exp10))
    ensures Denoted(Layout(negative, d, exp10)) == (if negative then -1.0 else 1.0) * Scaled(d, exp10 - |d| + 1)
  {
    hide Scaled;
    var l, n := Layout(negative, d, exp10), |d|;
    if -5 <= exp10 < 0 {
      Leading([ZERO] + Zeros(-exp10 - 1), d, exp10 - n + 1);
      assert l.whole + l.frac == [ZERO] + Zeros(-exp10 - 1) + d;
    } else if 0 <= exp10 < 16 {
      if n > exp10 + 1 {
        assert l.whole + l.frac == d;
      } else {
        var y := Zeros(exp10 + 1 - n) + [ZERO];
        Trailing(d, y, exp10 - n + 1);
        assert l.whole + l.frac == d + y;
      }
    } else if n > 1 {
      assert l.whole + l.frac == d;
    } else {
      Trailing(d, [ZERO], exp10 - n + 1);
      assert d[..1] == d && l.whole + l.frac == d + [ZERO];
    }
  }

  /** Dropping trailing zeros keeps the number. */
  lemma TrimExact(d: Text, n: nat, exp10: int)
    requires 1 <= n <= |d| && forall i :: n <= i < |d| ==> d[i] == ZERO
    ensures Scaled(d[..n], exp10 - n + 1) == Scaled(d, exp10 - |d| + 1)
  {
    assert d == d[..n] + d[n..];
    Trailing(d[..n], d[n..], exp10 - n + 1);
  }

  // ---- reading a literal back ----

  lemma DigitsRun(d: Text, rest: Text)
    requires Digits(d) && (rest == [] || !IsDigit(rest[0]))
    ensures Run(d + rest, 10) == d && (d + rest)[|d|..] == rest
  {
    RunExact(d, rest, 10);
  }

  /** Every literal of the grammar is read back from its own spelling. */
  lemma ReadsBack(l: Literal)
    requires Grammatical(l)
    ensures ReadReal(Spelled(l)) == Real(l)
  {
    hide Exponent, ReadUnsigned;
    UnsignedBack(l);
    var u := Spelled(l.(negative := false));
    assert u[0] == l.whole[0];
    assert Spelled(l) == Sign(l.negative) + u;
    assert l.negative ==> Spelled(l)[1..] == u;
    assert !l.negative ==> Spelled(l) == u;
  }

  lemma UnsignedBack(l: Literal)
    requires Grammatical(l)
    ensures ReadUnsigned(l.negative, Spelled(l.(negative := false))) == Real(l)
  {
    hide Exponent, ReadFraction, ReadUnsigned, Run;
    var w := l.frac + if l.hasExp then [CapE] + Exponent(l.exp) else [];
    FractionBack(l);
    PointBack(l.negative, l.whole, w);
    assert Spelled(l.(negative := false)) == l.whole + ([DOT] + w);
  }

  lemma PointBack(negative: bool, whole: Text, w: Text)
    requires Digits(whole)
    ensures ReadUnsigned(negative, whole + ([DOT] + w)) == ReadFraction(negative, whole, w)
  {
    hide ReadFraction, Run;
    DigitsRun(whole, [DOT] + w);
    assert ([DOT] + w)[1..] == w;
  }

  lemma FractionBack(l: Literal)
    requires Grammatical(l)
    ensures ReadFraction(l.negative, l.whole, l.frac + if l.hasExp then [CapE] + Exponent(l.exp) else []) == Real(l)
  {
    hide Exponent, ReadExponent, Run;
    var tail := if l.hasExp then [CapE] + Exponent(l.exp) else [];
    DigitsRun(l.frac, tail);
    if l.hasExp {
      ExponentBack(l);
      assert tail[1..] == Exponent(l.exp);
    }
  }

  lemma ExponentBack(l: Literal)
    requires l.hasExp
    ensures ReadExponent(l.negative, l.whole, l.frac, Exponent(l.exp)) == Real(l)
  {
    hide Run, Value, Decimal;
    var m := if l.exp < 0 then -l.exp else l.exp;
    DecimalValue(m);
    var x := Decimal(m);
    assert x + [] == x;
    DigitsRun(x, []);
    assert l.exp < 0 ==> ([MINUS] + x)[1..] == x;
  }

  lemma {:induction false} DecimalShort(v: nat, k: nat)
    requires k >= 1 && v < Power(10, k)
    ensures |Decimal(v)| <= k
  {
    if v >= 10 {
      assert Power(10, 1) == 10 * Power(10, 0) == 10;
      assert k > 1;
      assert v / 10 < Power(10, k - 1);
      DecimalShort(v / 10, k - 1);
    }
  }

  lemma ExponentShort(e: int)
    requires -0x8000_0000 <= e < 0x8000_0000
    ensures |Exponent(e)| <= 11
  {
    TenPowers();
    DecimalShort(if e < 0 then -e else e, 10);
  }

  lemma TenPowers()
    ensures Power(10, 10) == 10_000_000_000
  {
    assert Power(10, 2) == 100 && Power(10, 4) == 10_000 by { assert Power(10, 1) == 10; PowerAdd(10, 2, 2); }
    PowerAdd(10, 4, 4);
    PowerAdd(10, 8, 2);
  }

  /** The literal in characters: a minus sign or none, digits, a point, digits,
      and E with the exponent when there is one. */
  function Characters(negative: bool, whole: Text, frac: Text, hasExp: bool, exp: int): Text {
    (if negative then ['-' as int] else []) + whole + ['.' as int] + frac +
    (if !hasExp then [] else ['E' as int] + if exp < 0 then ['-' as int] + Decimal(-exp) else Decimal(exp))
  }

  lemma InCharacters(negative: bool, d: Text, exp10: int)
    requires Digits(d)
    ensures var l := Layout(negative, d, exp10);
            Spelled(l) == Characters(negative, l.whole, l.frac, l.hasExp, exp10) &&
            forall i :: 0 <= i < |l.whole + l.frac| ==> '0' as int <= (l.whole + l.frac)[i] <= '9' as int
  {
    hide Decimal;
    var l := Layout(negative, d, exp10);
    forall i | 0 <= i < |l.whole + l.frac|
      ensures '0' as int <= (l.whole + l.frac)[i] <= '9' as int
    {
      LayoutDigits(negative, d, exp10, i);
    }
  }

  lemma LayoutDigits(negative: bool, d: Text, exp10: int, i: nat)
    requires Digits(d)
    ensures var l := Layout(negative, d, exp10); i < |l.whole + l.frac| ==> IsDigit((l.whole + l.frac)[i])
  {
    LayoutExact(negative, d, exp10);
  }

  /** Powers of ten, up and down. */
  lemma TenLaws(e: int)
    ensures TenTo(0) == 1.0 && TenTo(e + 1) == 10.0 * TenTo(e)
  {
  }

  // ---- the code ----

  class Buffer {
    const out: array<Byte>
    var o: nat

    constructor ()
      ensures out.Length == 64 && o == 0 && fresh(out)
    {
      out := new Byte[64](i => 0);
      o := 0;
    }

    ghost function Text(): Text
      requires o <= out.Length
      reads this, out
    {
      out[..o]
    }

    /** out[o++] = c, with room for the final NUL. */
    method Put(c: Byte)
      requires o + 1 < out.Length
      modifies this, out
      ensures o == old(o) + 1 && Text() == old(Text()) + [c]
    {
      out[o] := c;
      o := o + 1;
    }

    method PutAll(d: Text, from: nat)
      requires from <= |d| && o + (|d| - from) < out.Length
      modifies this, out
      ensures o == old(o) + (|d| - from) && Text() == old(Text()) + d[from..]
    {
      var i := from;
      ghost var t := Text();
      while i < |d|
        invariant from <= i <= |d| && o == old(o) + (i - from) && Text() == t + d[from..i]
      {
        Put(d[i]);
        i := i + 1;
      }
      assert d[from..] == d[from..|d|];
    }

    method PutZeros(n: nat)
      requires o + n < out.Length
      modifies this, out
      ensures o == old(o) + n && Text() == old(Text()) + Zeros(n)
    {
      var i := 0;
      ghost var t := Text();
      while i < n
        invariant 0 <= i <= n && o == old(o) + i && Text() == t + Zeros(i)
      {
        Put(ZERO);
        i := i + 1;
      }
    }

    /** Lays out at most 20 digits, the first of weight 10^exp10. The text is
        a literal with that value, and the final NUL fits the buffer too. */
    method Write(negative: bool, digits: Text, exp10: int) returns (ghost l: Literal)
      requires Digits(digits) && |digits| <= 20 && -0x8000_0000 <= exp10 < 0x8000_0000
      requires o == 0 && out.Length == 64
      modifies this, out
      ensures o < out.Length && ReadReal(Text()) == Real(l)
      ensures Text() == Characters(negative, l.whole, l.frac, l.hasExp, exp10)
      ensures forall i :: 0 <= i < |l.whole + l.frac| ==> '0' as int <= (l.whole + l.frac)[i] <= '9' as int
      ensures l.hasExp <==> !(-5 <= exp10 <= 15)
      ensures |l.whole| == if 0 <= exp10 <= 15 then exp10 + 1 else 1
      ensures exp10 >= 0 || digits[0] != ZERO ==> l.frac == [ZERO] || l.frac[|l.frac| - 1] != ZERO
      ensures Denoted(l) == (if negative then -1.0 else 1.0) * Scaled(digits, exp10 - |digits| + 1)
    {
      hide Scaled, ReadReal, Spelled, Denoted;
      if negative { Put(MINUS); }
      var nd := |digits|;
      while nd > 1 && digits[nd - 1] == ZERO
        invariant 1 <= nd <= |digits| && forall i :: nd <= i < |digits| ==> digits[i] == ZERO
        modifies {}
      {
        nd := nd - 1;
      }
      var d := digits[..nd];
      TrimExact(digits, nd, exp10);
      l := Layout(negative, d, exp10);
      LayoutExact(negative, d, exp10);
      ReadsBack(l);
      InCharacters(negative, d, exp10);
      if -5 <= exp10 < 0 {
        Small(negative, d, exp10);
      } else if 0 <= exp10 < 16 {
        Plain(negative, d, exp10);
      } else {
        Scientific(negative, d, exp10);
      }
    }

    /** A number below one. */
    method Small(negative: bool, d: Text, exp10: int)
      requires Digits(d) && |d| <= 20 && -5 <= exp10 < 0 && out.Length == 64
      requires o == |Sign(negative)| && Text() == Sign(negative)
      modifies this, out
      ensures o < out.Length && Text() == Spelled(Layout(negative, d, exp10))
    {
      hide Digits;
      Put(ZERO);
      Put(DOT);
      PutZeros(-exp10 - 1);
      PutAll(d, 0);
      SmallShape(negative, d, exp10);
    }

    /** A number of at most 16 digits before the point. */
    method Plain(negative: bool, d: Text, exp10: int)
      requires Digits(d) && |d| <= 20 && 0 <= exp10 < 16 && out.Length == 64
      requires o == |Sign(negative)| && Text() == Sign(negative)
      modifies this, out
      ensures o < out.Length && Text() == Spelled(Layout(negative, d, exp10))
    {
      hide Digits, Layout, Spelled;
      PutWhole(d, exp10 + 1);
      Put(DOT);
      if |d| > exp10 + 1 { PutAll(d, exp10 + 1); } else { Put(ZERO); }
      PlainShape(negative, d, exp10);
    }

    /** The digits before the point, padded with zeros. */
    method PutWhole(d: Text, n: nat)
      requires o + n < out.Length
      modifies this, out
      ensures o == old(o) + n && Text() == old(Text()) + Whole(d, n)
    {
      var i := 0;
      ghost var t := Text();
      while i < n
        invariant 0 <= i <= n && o == old(o) + i
        invariant Text() == t + Whole(d, i)
      {
        WholeGrows(d, i);
        Put(if i < |d| then d[i] else ZERO);
        i := i + 1;
      }
    }

    method Scientific(negative: bool, d: Text, exp10: int)
      requires Digits(d) && |d| <= 20 && (exp10 < -5 || exp10 >= 16) && -0x8000_0000 <= exp10 < 0x8000_0000 && out.Length == 64
      requires o == |Sign(negative)| && Text() == Sign(negative)
      modifies this, out
      ensures o < out.Length && Text() == Spelled(Layout(negative, d, exp10))
    {
      hide Layout, Spelled, Exponent;
      Put(d[0]);
      Put(DOT);
      if |d| > 1 { PutAll(d, 1); } else { Put(ZERO); }
      ExponentShort(exp10);
      Put(CapE);
      PutAll(Exponent(exp10), 0);
      ScientificShape(negative, d, exp10);
    }
  }

  function Whole(d: Text, n: nat): Text { if n <= |d| then d[..n] else d + Zeros(n - |d|) }

  lemma WholeGrows(d: Text, i: nat)
    ensures Whole(d, i + 1) == Whole(d, i) + [if i < |d| then d[i] else ZERO]
  {
  }

  // The layouts as the order in which their parts are written.

  lemma SmallShape(negative: bool, d: Text, exp10: int)
    requires Digits(d) && -5 <= exp10 < 0
    ensures Spelled(Layout(negative, d, exp10)) == Sign(negative) + [ZERO] + [DOT] + Zeros(-exp10 - 1) + d[0..]
  {
  }

  lemma PlainShape(negative: bool, d: Text, exp10: int)
    requires Digits(d) && 0 <= exp10 < 16
    ensures Spelled(Layout(negative, d, exp10)) ==
            Sign(negative) + Whole(d, exp10 + 1) + [DOT] + (if |d| > exp10 + 1 then d[exp10 + 1..] else [ZERO])
  {
  }

  lemma ScientificShape(negative: bool, d: Text, exp10: int)
    requires Digits(d) && (exp10 < -5 || exp10 >= 16)
    ensures Spelled(Layout(negative, d, exp10)) ==
            Sign(negative) + [d[0]] + [DOT] + (if |d| > 1 then d[1..] else [ZERO]) + [CapE] + Exponent(exp10)[0..]
  {
    assert d[..1] == [d[0]];
    var l := Layout(negative, d, exp10);
    assert Spelled(l) == Sign(negative) + l.whole + [DOT] + l.frac + ([CapE] + Exponent(exp10));
  }
}
