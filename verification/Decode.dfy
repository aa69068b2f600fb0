/** DECODE of an integer (runtime/encode_decode.c): the whole text, less blanks
    and tabs at either end, must be one decimal number of the type. */
module Decode {
  import opened Bits
  import opened TextSpec
  import N = Numerals

  const MaxU64: int := 0xFFFF_FFFF_FFFF_FFFF
  const MaxI64: int := 0x7FFF_FFFF_FFFF_FFFF

  /** The destination: a type of some width, or a declared subrange of it. */
  datatype Kind = Whole(w: Width, unsigned: bool) | Subrange(w: Width, unsigned: bool, lo: int, hi: int)

  predicate KindOk(k: Kind) {
    k.Subrange? ==> -MaxI64 - 1 <= k.lo <= MaxI64 && -MaxI64 - 1 <= k.hi <= MaxI64
  }

  function UMax(w: Width): int { Modulus(w) - 1 }

  /** The values of the destination. */
  function Lo(k: Kind): int {
    if k.Subrange? then k.lo else if k.unsigned then 0 else -(UMax(k.w) / 2) - 1
  }

  function Hi(k: Kind): int {
    if k.Subrange? then k.hi else if k.unsigned then UMax(k.w) else UMax(k.w) / 2
  }

  // ---- what DECODE means ----

  predicate IsBlank(c: int) { c == 32 || c == 9 }

  /** A number and nothing else: an optional sign and digits, at least one. */
  datatype Numeral = NotANumber | Exactly(v: int)

  predicate AllDigits(t: Text) { forall i :: 0 <= i < |t| ==> IsDigit(t[i]) }

  function NumeralOf(t: Text): Numeral {
    var d := if t != [] && IsSign(t[0]) then t[1..] else t;
    if d == [] || !AllDigits(d) then NotANumber
    else Exactly(Signed(t[0] == 45, Value(d, 10)))
  }

  /** t is s with only blanks and tabs before and after, and none left at either
      end of s. */
  ghost predicate TrimmedTo(t: Text, s: Text) {
    exists i, j :: TrimAt(t, s, i, j)
  }

  ghost predicate TrimAt(t: Text, s: Text, i: int, j: int) {
    && 0 <= i <= j <= |t| && s == t[i..j]
    && (forall k :: 0 <= k < i || j <= k < |t| ==> IsBlank(t[k]))
    && (s != [] ==> !IsBlank(s[0]) && !IsBlank(s[|s| - 1]))
  }

  /** DECODE succeeds on t with value v in a destination of kind k. */
  ghost predicate Decodes(t: Text, k: Kind, v: int) {
    exists s :: TrimmedTo(t, s) && NumeralOf(s) == Exactly(v) && Lo(k) <= v <= Hi(k)
  }

  /** There is only one way to trim a text. */
  lemma TrimUnique(t: Text, r: Text, s: Text)
    requires TrimmedTo(t, r) && TrimmedTo(t, s)
    ensures r == s
  {
    var i, j :| TrimAt(t, r, i, j);
    var k, l :| TrimAt(t, s, k, l);
    assert i < j ==> r[0] == t[i] && r[|r| - 1] == t[j - 1];
    assert k < l ==> s[0] == t[k] && s[|s| - 1] == t[l - 1];
    if i < j && k < l { assert i == k && j == l; }
  }

  /** And so at most one value. */
  lemma DecodesOnce(t: Text, k: Kind, v: int, w: int)
    requires Decodes(t, k, v) && Decodes(t, k, w)
    ensures v == w
  {
    var r :| TrimmedTo(t, r) && NumeralOf(r) == Exactly(v);
    var s :| TrimmedTo(t, s) && NumeralOf(s) == Exactly(w);
    TrimUnique(t, r, s);
  }

  // ---- the code ----

  /** decode_trim. */
  method Trim(src: Text) returns (s: Text)
    ensures TrimmedTo(src, s)
  {
    var i, n := 0, |src|;
    while n > 0 && IsBlank(src[i])
      invariant 0 <= i && 0 <= n && i + n == |src|
      invariant forall k :: 0 <= k < i ==> IsBlank(src[k])
    {
      i, n := i + 1, n - 1;
    }
    while n > 0 && IsBlank(src[i + n - 1])
      invariant 0 <= n && i + n <= |src|
      invariant forall k :: 0 <= k < i || i + n <= k < |src| ==> IsBlank(src[k])
      invariant n > 0 ==> !IsBlank(src[i])
    {
      n := n - 1;
    }
    s := src[i..i + n];
    assert TrimAt(src, s, i, i + n);
  }

  /** decode_decimal: the magnitude in 64 unsigned bits, or overflow. */
  method Magnitude(s: Text) returns (ok: bool, negative: bool, mag: nat)
    ensures ok <==> NumeralOf(s).Exactly? && -MaxU64 <= NumeralOf(s).v <= MaxU64
    ensures ok ==> mag <= MaxU64 && NumeralOf(s).v == Signed(negative, mag)
  {
    hide Value;
    var i := 0;
    mag, ok, negative := 0, false, false;
    if i < |s| && IsSign(s[i]) {
      negative := s[i] == 45;
      i := i + 1;
    }
    ghost var d := s[i..];
    assert d == if s != [] && IsSign(s[0]) then s[1..] else s;
    if i >= |s| { return; }
    ghost var m := i;
    ValueNothing();
    while i < |s|
      invariant m <= i <= |s| && AllDigits(d[..i - m]) && mag == Value(d[..i - m], 10) && mag <= MaxU64
    {
      if s[i] < 48 || s[i] > 57 {
        assert !IsDigit(d[i - m]);
        return;
      }
      var digit := s[i] - 48;
      assert d[..i - m + 1] == d[..i - m] + [s[i]];
      ValueSnoc(d[..i - m], s[i], 10);
      if mag > (MaxU64 - digit) / 10 {
        Grows(d, i - m + 1);
        return;
      }
      mag := mag * 10 + digit;
      i := i + 1;
    }
    assert d[..|d|] == d;
    ok := true;
  }

  /** pas_decode_integer: the value is stored only when the call succeeds. */
  method DecodeInteger(src: Text, k: Kind, prior: int) returns (ok: bool, out: int)
    requires KindOk(k)
    ensures ok <==> exists v :: Decodes(src, k, v)
    ensures ok ==> exists v :: Decodes(src, k, v) && out == if v >= 0x8000_0000_0000_0000 then v - 0x1_0000_0000_0000_0000 else v
    ensures !ok ==> out == prior
  {
    hide TrimmedTo, NumeralOf;
    out := prior;
    var s := Trim(src);
    OnlyTrim(src, s, k);
    var good, negative, mag := Magnitude(s);
    ok := false;
    if !good { return; }
    if negative && mag == 0 { negative := false; }
    if k.unsigned && k.w == W64 && k.Whole? {
      if negative { return; }
      out := if mag > MaxI64 then mag - (MaxU64 + 1) else mag;
      ok := true;
      return;
    }
    var value: int;
    if negative {
      if mag > MaxI64 + 1 { return; }
      value := if mag == MaxI64 + 1 then -MaxI64 - 1 else -mag as int;
    } else {
      if mag > MaxI64 { return; }
      value := mag;
    }
    var lo, hi;
    if k.Subrange? {
      lo, hi := k.lo, k.hi;
    } else if k.unsigned {
      lo, hi := 0, Modulus(k.w) - 1;
    } else {
      hi := Modulus(k.w) / 2 - 1;
      lo := -hi - 1;
    }
    if value < lo || value > hi { return; }
    out := value;
    ok := true;
  }

  lemma ValueNothing()
    ensures forall d: Text :: d[..0] == [] && Value(d[..0], 10) == 0
  {
  }

  /** A prefix beyond 64 bits puts the whole number beyond them. */
  lemma {:induction false} Grows(d: Text, n: nat)
    requires n <= |d|
    ensures Value(d[..n], 10) <= Value(d, 10)
    decreases |d|
  {
    if n < |d| {
      var e := d[..|d| - 1];
      Grows(e, n);
      assert e[..n] == d[..n];
    } else {
      assert d[..n] == d;
    }
  }

  /** The trimmed text decides. */
  lemma OnlyTrim(t: Text, s: Text, k: Kind)
    requires TrimmedTo(t, s)
    ensures forall v :: Decodes(t, k, v) <==> NumeralOf(s) == Exactly(v) && Lo(k) <= v <= Hi(k)
  {
    forall v | Decodes(t, k, v)
      ensures NumeralOf(s) == Exactly(v) && Lo(k) <= v <= Hi(k)
    {
      var r :| TrimmedTo(t, r) && NumeralOf(r) == Exactly(v) && Lo(k) <= v <= Hi(k);
      TrimUnique(t, r, s);
    }
  }

  /** Decoding the decimal text of any value of the destination, in any blanks,
      gives that value back. */
  lemma DecodeRoundTrip(v: int, k: Kind, before: Text, after: Text)
    requires Lo(k) <= v <= Hi(k)
    requires forall i :: 0 <= i < |before| ==> IsBlank(before[i])
    requires forall i :: 0 <= i < |after| ==> IsBlank(after[i])
    ensures Decodes(before + Written(v) + after, k, v)
  {
    var s, t := Written(v), before + Written(v) + after;
    WrittenIs(v);
    assert t[|before|..|before| + |s|] == s;
    assert TrimAt(t, s, |before|, |before| + |s|);
  }

  /** The decimal text of an integer. */
  function Written(v: int): (t: Text)
    ensures t != []
  {
    if v < 0 then [45] + Decimal(-v) else Decimal(v)
  }

  lemma WrittenIs(v: int)
    ensures NumeralOf(Written(v)) == Exactly(v)
    ensures !IsBlank(Written(v)[0]) && !IsBlank(Written(v)[|Written(v)| - 1])
  {
    var m := if v < 0 then -v else v;
    DecimalValue(m);
    if v < 0 { assert Written(v)[1..] == Decimal(m); }
  }

  // ---- in characters ----

  predicate Blanks(t: Text) { forall i :: 0 <= i < |t| ==> t[i] == ' ' as int || t[i] == 9 }

  /** v is a value of the destination. */
  predicate ValueOfKind(k: Kind, v: int) {
    match k
    case Subrange(_, _, lo, hi) => lo <= v <= hi
    case Whole(W8, unsigned) => if unsigned then 0 <= v <= 255 else -128 <= v <= 127
    case Whole(W16, unsigned) => if unsigned then 0 <= v <= 65535 else -32768 <= v <= 32767
    case Whole(W32, unsigned) => if unsigned then 0 <= v <= 4294967295 else -2147483648 <= v <= 2147483647
    case Whole(W64, unsigned) =>
      if unsigned then 0 <= v <= 18446744073709551615 else -9223372036854775808 <= v <= 9223372036854775807
  }

  lemma RangesAre(k: Kind, v: int)
    ensures ValueOfKind(k, v) <==> Lo(k) <= v <= Hi(k)
  {
    match k case Subrange(_, _, _, _) => case Whole(W8, _) => case Whole(W16, _) => case Whole(W32, _) => case Whole(W64, _) =>
  }

  /** A sign or none and digits, in any blanks and tabs, decode to their value by
      place exactly when the destination has it. */
  lemma DecodesExactly(before: Text, sign: Text, d: Text, after: Text, k: Kind, v: int)
    requires Blanks(before) && Blanks(after) && N.SignText(sign) && d != [] && N.DigitsOf(d, 10)
    ensures Decodes(before + (sign + d) + after, k, v) <==>
            v == (if sign == [45] then -N.Places(d, 10) else N.Places(d, 10)) && ValueOfKind(k, v)
  {
    hide Value, N.Places, TrimmedTo;
    var s, t := sign + d, before + (sign + d) + after;
    NumeralIs(sign, d);
    FramedTrim(before, s, after);
    OnlyTrim(t, s, k);
    RangesAre(k, v);
  }

  lemma NumeralIs(sign: Text, d: Text)
    requires N.SignText(sign) && d != [] && N.DigitsOf(d, 10)
    ensures NumeralOf(sign + d) == Exactly(if sign == [45] then -N.Places(d, 10) else N.Places(d, 10))
    ensures !IsBlank((sign + d)[0]) && !IsBlank((sign + d)[|sign + d| - 1])
  {
    hide Value, N.Places;
    N.ValueByPlace(d, 10);
    assert forall i :: 0 <= i < |d| ==> N.DigitOf(d[i], 10);
    assert sign != [] ==> (sign + d)[1..] == d;
    assert sign == [] ==> sign + d == d;
    assert N.DigitOf(d[0], 10) && N.DigitOf(d[|d| - 1], 10);
  }

  lemma FramedTrim(before: Text, s: Text, after: Text)
    requires Blanks(before) && Blanks(after) && s != [] && !IsBlank(s[0]) && !IsBlank(s[|s| - 1])
    ensures TrimmedTo(before + s + after, s)
  {
    var t := before + s + after;
    assert t[|before|..|before| + |s|] == s;
    assert TrimAt(t, s, |before|, |before| + |s|);
  }

  /** And nothing else decodes. */
  lemma DecodesOnly(t: Text, k: Kind, v: int) returns (before: Text, sign: Text, d: Text, after: Text)
    requires Decodes(t, k, v)
    ensures t == before + (sign + d) + after && Blanks(before) && Blanks(after) && N.SignText(sign) && d != [] && N.DigitsOf(d, 10)
  {
    hide NumeralOf, TrimmedTo, Lo, Hi, N.DigitsOf, N.SignText, Blanks;
    var s :| TrimmedTo(t, s) && NumeralOf(s) == Exactly(v);
    before, after := TrimParts(t, s);
    sign, d := NumeralShape(s);
  }

  lemma TrimParts(t: Text, s: Text) returns (before: Text, after: Text)
    requires TrimmedTo(t, s)
    ensures t == before + s + after && Blanks(before) && Blanks(after)
  {
    var i, j :| TrimAt(t, s, i, j);
    before, after := t[..i], t[j..];
    assert t == t[..i] + t[i..j] + t[j..];
  }

  lemma NumeralShape(s: Text) returns (sign: Text, d: Text)
    requires NumeralOf(s).Exactly?
    ensures s == sign + d && N.SignText(sign) && d != [] && N.DigitsOf(d, 10)
  {
    hide Value;
    sign := if s != [] && IsSign(s[0]) then [s[0]] else [];
    d := s[|sign|..];
    assert s == sign + d;
    assert AllDigits(d);
  }
}
