/** What the number readers accept, in characters: blanks, signs, digits and
    prefixes by their codes, values by place, ranges by their bounds. */
module Numerals {
  import opened TextSpec

  predicate WhiteByte(c: int) { c == 32 || c == 9 || c == 10 || c == 11 || c == 12 || c == 13 }
  predicate White(b: Text) { forall i :: 0 <= i < |b| ==> WhiteByte(b[i]) }

  /** + or - or nothing. */
  predicate SignText(s: Text) { s == [] || s == [43] || s == [45] }

  /** What a digit is worth: 0 to 9, a to f, A to F. */
  function Worth(c: int): int {
    if '0' as int <= c <= '9' as int then c - '0' as int
    else if 'a' as int <= c <= 'f' as int then c - 'a' as int + 10
    else if 'A' as int <= c <= 'F' as int then c - 'A' as int + 10
    else -1
  }

  predicate DigitOf(c: int, base: nat) { 0 <= Worth(c) < base }

  predicate DigitsOf(d: Text, base: nat) { forall i :: 0 <= i < |d| ==> DigitOf(d[i], base) }

  /** The value of digits by place: the first one counts base^(|d| - 1). */
  function Places(d: Text, base: nat): int {
    if d == [] then 0 else Worth(d[0]) * Power(base, |d| - 1) + Places(d[1..], base)
  }

  predicate BaseOk(base: nat) { base == 8 || base == 10 || base == 16 }

  lemma DigitsAgree(c: int, base: nat)
    requires BaseOk(base)
    ensures IsDigitIn(c, base) <==> DigitOf(c, base)
    ensures DigitOf(c, base) ==> DigitValue(c) == Worth(c)
  {
  }

  lemma {:induction false} PlaceSnoc(d: Text, c: Byte, base: nat)
    ensures Places(d + [c], base) == Places(d, base) * base + Worth(c)
  {
    if d == [] {
      assert d + [c] == [c] && [c][1..] == [];
      assert Power(base, 0) == 1;
    } else {
      var n := |d|;
      assert (d + [c])[1..] == d[1..] + [c];
      PlaceSnoc(d[1..], c, base);
      assert Power(base, n) == base * Power(base, n - 1);
      Rearrange(Worth(d[0]), Power(base, n - 1), base, Places(d[1..], base));
    }
  }

  lemma Rearrange(w: int, p: int, b: int, r: int)
    ensures w * (b * p) + r * b == (w * p + r) * b
  {
  }

  /** The scanners' value is the value by place. */
  lemma {:induction false} ValueByPlace(d: Text, base: nat)
    requires BaseOk(base) && DigitsOf(d, base)
    ensures Value(d, base) == Places(d, base)
  {
    if d != [] {
      var n := |d| - 1;
      ValueByPlace(d[..n], base);
      assert d == d[..n] + [d[n]];
      PlaceSnoc(d[..n], d[n], base);
      DigitsAgree(d[n], base);
    }
  }

  lemma {:induction false} SkipWhite(b: Text, rest: Text)
    requires White(b) && (rest == [] || !WhiteByte(rest[0]))
    ensures SkipSpace(b + rest) == rest
  {
    if b == [] {
      assert b + rest == rest;
    } else {
      SkipWhite(b[1..], rest);
      assert (b + rest)[1..] == b[1..] + rest;
    }
  }

  lemma RunOf(d: Text, rest: Text, base: nat)
    requires BaseOk(base) && DigitsOf(d, base) && (rest == [] || !DigitOf(rest[0], base))
    ensures Run(d + rest, base) == d && (d + rest)[|d|..] == rest
  {
    forall i | 0 <= i < |d|
      ensures IsDigitIn(d[i], base)
    {
      DigitsAgree(d[i], base);
    }
    if rest != [] { DigitsAgree(rest[0], base); }
    RunExact(d, rest, base);
  }

  // ---- decimal integers ----

  predicate InRange(bits: IntSize, v: int) {
    match bits
    case B16 => -32768 <= v <= 32767
    case B32 => -2147483648 <= v <= 2147483647
    case B64 => -9223372036854775808 <= v <= 9223372036854775807
  }

  /** Blanks, a sign or none, and digits: the number they are by place, exactly
      when it is in range; what follows the digits stays. */
  lemma DecimalExactly(b: Text, sign: Text, d: Text, rest: Text, bits: IntSize)
    requires White(b) && SignText(sign) && d != [] && DigitsOf(d, 10) && (rest == [] || !DigitOf(rest[0], 10))
    ensures var v := if sign == [45] then -Places(d, 10) else Places(d, 10);
            ScanDecimal(b + (sign + (d + rest)), bits) == if InRange(bits, v) then Scanned(v, rest) else OutOfRange(rest)
  {
    hide Run, Value, Places, Power, SkipSpace;
    var w := d + rest;
    assert w[0] == d[0] && DigitOf(d[0], 10);
    SkipWhite(b, sign + w);
    RunOf(d, rest, 10);
    ValueByPlace(d, 10);
    assert sign != [] ==> (sign + w)[1..] == w;
    assert sign == [] ==> sign + w == w;
  }

  /** Nothing but blanks is no number, and blanks before anything else, with or
      without a sign, are a malformed one; the offending character stays. */
  lemma DecimalRefused(b: Text, sign: Text, rest: Text, bits: IntSize)
    requires White(b) && SignText(sign) && (rest == [] || !DigitOf(rest[0], 10))
    requires sign == [] && rest != [] ==> !WhiteByte(rest[0]) && rest[0] != 43 && rest[0] != 45
    ensures ScanDecimal(b + (sign + rest), bits) == if sign + rest == [] then NoInput else Malformed(rest)
  {
    hide Value, SkipSpace;
    SkipWhite(b, sign + rest);
    RunOf([], rest, 10);
    assert [] + rest == rest;
    assert sign != [] ==> (sign + rest)[1..] == rest;
    assert sign == [] ==> sign + rest == rest;
  }

  // ---- pointers ----

  /** The prefix of each base: nothing before a decimal number that does not
      start with 0, 0 before an octal one, 0x or 0X before a hexadecimal one. */
  predicate Prefixed(prefix: Text, d: Text, base: nat, rest: Text) {
    || (base == 10 && prefix == [] && d != [] && d[0] != 48)
    || (base == 8 && prefix == [48] && (d == [] && rest != [] ==> rest[0] != 120 && rest[0] != 88))
    || (base == 16 && (prefix == [48, 120] || prefix == [48, 88]))
  }

  /** Accepted exactly when the magnitude is below 2^64; a minus sign gives the
      two's complement. */
  lemma PointerExactly(b: Text, sign: Text, prefix: Text, d: Text, base: nat, rest: Text)
    requires White(b) && SignText(sign) && BaseOk(base) && DigitsOf(d, base) && (rest == [] || !DigitOf(rest[0], base))
    requires Prefixed(prefix, d, base, rest)
    ensures var m := Places(d, base);
            ScanPtr(b + (sign + (prefix + (d + rest)))) ==
            if m >= 0x1_0000_0000_0000_0000 then OutOfRange(rest)
            else Scanned(if sign == [45] && m != 0 then 0x1_0000_0000_0000_0000 - m else m, rest)
  {
    hide Run, Value, Places, Power, SkipSpace, PtrAfterSign;
    var w := prefix + (d + rest);
    assert w != [] && (w[0] == 48 || (w[0] == d[0] && DigitOf(d[0], 10)));
    SkipWhite(b, sign + w);
    PrefixRead(prefix, d, base, rest, sign == [45]);
    assert sign != [] ==> (sign + w)[1..] == w;
    assert sign == [] ==> sign + w == w;
  }

  lemma PrefixRead(prefix: Text, d: Text, base: nat, rest: Text, negative: bool)
    requires BaseOk(base) && DigitsOf(d, base) && (rest == [] || !DigitOf(rest[0], base)) && Prefixed(prefix, d, base, rest)
    ensures var m := Places(d, base);
            PtrAfterSign(prefix + (d + rest), negative) ==
            if m >= 0x1_0000_0000_0000_0000 then OutOfRange(rest)
            else Scanned(if negative && m != 0 then 0x1_0000_0000_0000_0000 - m else m, rest)
  {
    hide PtrDigits, Places, Power;
    var x := d + rest;
    var w := prefix + x;
    PtrDigitsRead(d, base, rest, negative, base != 10);
    if base == 10 {
      assert w == x && x[0] == d[0];
    } else if base == 8 {
      assert w[1..] == x;
      assert d != [] ==> x[0] == d[0] && DigitOf(d[0], 8);
      assert d == [] ==> x == rest;
      assert |w| > 1 ==> w[1] == x[0];
    } else {
      assert w[2..] == x;
    }
  }

  lemma PtrDigitsRead(d: Text, base: nat, rest: Text, negative: bool, seen: bool)
    requires BaseOk(base) && DigitsOf(d, base) && (rest == [] || !DigitOf(rest[0], base)) && (d != [] || seen)
    ensures var m := Places(d, base);
            PtrDigits(d + rest, base, negative, seen) ==
            if m >= 0x1_0000_0000_0000_0000 then OutOfRange(rest)
            else Scanned(if negative && m != 0 then 0x1_0000_0000_0000_0000 - m else m, rest)
  {
    hide Run, Value, Places, Power;
    RunOf(d, rest, base);
    ValueByPlace(d, base);
    PlacesNat(d, base);
  }

  lemma {:induction false} PlacesNat(d: Text, base: nat)
    requires BaseOk(base) && DigitsOf(d, base)
    ensures Places(d, base) >= 0
  {
    ValueByPlace(d, base);
  }

  lemma PointerRefused(b: Text, sign: Text, rest: Text)
    requires White(b) && SignText(sign) && (rest == [] || !DigitOf(rest[0], 10))
    requires sign == [] && rest != [] ==> !WhiteByte(rest[0]) && rest[0] != 43 && rest[0] != 45
    ensures ScanPtr(b + (sign + rest)) == if sign + rest == [] then NoInput else Malformed(rest)
  {
    hide Value, SkipSpace;
    SkipWhite(b, sign + rest);
    RunOf([], rest, 10);
    assert [] + rest == rest;
    assert sign != [] ==> (sign + rest)[1..] == rest;
    assert sign == [] ==> sign + rest == rest;
  }

  /** Every text is one of these: blanks, then a sign or none, then digits or
      none. */
  lemma Shapes(t: Text) returns (b: Text, sign: Text, d: Text, rest: Text)
    ensures t == b + (sign + (d + rest)) && White(b) && SignText(sign) && DigitsOf(d, 10) && (rest == [] || !DigitOf(rest[0], 10))
    ensures sign == [] && d == [] && rest != [] ==> !WhiteByte(rest[0]) && rest[0] != 43 && rest[0] != 45
  {
    hide Run;
    var u;
    b, u := Blanks(t);
    sign := if u != [] && (u[0] == 43 || u[0] == 45) then [u[0]] else [];
    var w := u[|sign|..];
    d := Run(w, 10);
    rest := w[|d|..];
    forall i | 0 <= i < |d|
      ensures DigitOf(d[i], 10)
    {
      DigitsAgree(d[i], 10);
    }
    if rest != [] { DigitsAgree(rest[0], 10); }
    assert w == d + rest && u == sign + w;
    if d == [] { assert rest == w; }
  }

  lemma {:induction false} Blanks(t: Text) returns (b: Text, u: Text)
    ensures t == b + u && White(b) && (u == [] || !WhiteByte(u[0]))
  {
    if t == [] || !WhiteByte(t[0]) {
      b, u := [], t;
    } else {
      var c;
      c, u := Blanks(t[1..]);
      b := [t[0]] + c;
      assert t == [t[0]] + t[1..];
    }
  }

  // ---- lines, in characters ----

  /** A CR LF pair is a line end; nothing else is changed. */
  lemma FoldMeans(c: Byte, t: Text)
    ensures Fold([13, 10] + t) == [10] + Fold(t)
    ensures c != 13 || t == [] || t[0] != 10 ==> Fold([c] + t) == [c] + Fold(t)
  {
    assert ([13, 10] + t)[2..] == t;
    assert ([c] + t)[1..] == t;
  }

  /** READ of a CHAR and F^ show a line end as a blank, EOLN sees it, and READLN
      and READ of an LSTRING stop at it: READLN takes it, the LSTRING leaves it. */
  lemma LinesMean(a: Text, t: Text, trap: bool, cap: nat)
    requires 10 !in a
    ensures Eager([10] + t, trap, ReadChar) == (t, Char(32)) && Eager([10] + t, trap, Look) == ([10] + t, Char(32))
    ensures Eager([10] + t, trap, AtEoln) == ([10] + t, Flag(true))
    ensures a != [] ==> Eager(a + [10] + t, trap, AtEoln).1 == Flag(false) && Eager(a + [10] + t, trap, ReadChar).1 == Char(a[0])
    ensures Eager(a + [10] + t, trap, ReadLn) == (t, Done)
    ensures Eager(a + [10] + t, trap, ReadLString(cap)) == ([10] + t, Str(if |a| <= cap then a else a[..cap], if |a| <= cap then |a| else cap))
  {
    assert ([10] + t)[1..] == t;
    var s := a + [10] + t;
    LineOf(a, t);
    assert s[|a| + 1..] == t && s[|a|..] == [10] + t;
    assert a[..|a|] == a;
  }

  /** GET at the end is error 3; a number refused is error 14, and reading one at
      the end always ends the program, as does EOLN there. */
  lemma ErrorsMean(t: Text, bits: IntSize)
    ensures Eager([], true, Get) == ([], Error(3)) && Eager([], false, Get) == ([], Died)
    ensures Eager([], true, AtEoln).1 == Died && Eager([], true, ReadChar).1 == Died && Eager([], true, AtEof) == ([], Flag(true))
    ensures ScanDecimal(t, bits).Malformed? || ScanDecimal(t, bits).OutOfRange? ==>
              Eager(t, true, ReadInt(bits)).1 == Error(14) && Eager(t, false, ReadInt(bits)).1 == Died
    ensures ScanDecimal(t, bits).NoInput? ==> Eager(t, true, ReadInt(bits)).1 == Died
  {
  }

  lemma {:induction false} LineOf(a: Text, t: Text)
    requires 10 !in a
    ensures Line(a + [10] + t) == a
  {
    var s := a + [10] + t;
    if a != [] {
      assert a[0] in a;
      assert s[1..] == a[1..] + [10] + t;
      LineOf(a[1..], t);
      assert a == [a[0]] + a[1..];
    }
  }
}
