/** Pascal text input as one character sequence read eagerly: what every reader
    of runtime/fileops.c and runtime/readq.c is meant to do. */
module TextSpec {

  import Bits

  type Byte = Bits.Byte
  type Text = seq<Byte>

  const EOF: int := -1
  const LF: Byte := 10
  const CR: Byte := 13
  const BLANK: Byte := 32

  /** DOS line ends: a CR LF pair is one line marker, a bare CR is data. */
  function Fold(s: Text): Text {
    if s == [] then []
    else if s[0] == CR && |s| > 1 && s[1] == LF then [LF] + Fold(s[2..])
    else [s[0]] + Fold(s[1..])
  }

  /** The same text with DOS line ends. */
  function Dos(t: Text): Text {
    if t == [] then [] else (if t[0] == LF then [CR, LF] else [t[0]]) + Dos(t[1..])
  }

  predicate NoCR(s: Text) { CR !in s }

  lemma {:induction false} FoldPlain(s: Text)
    requires NoCR(s)
    ensures Fold(s) == s
  {
    if s != [] {
      FoldPlain(s[1..]);
      assert s == [s[0]] + s[1..];
    }
  }

  /** A DOS file reads as the text it was made from. */
  lemma {:induction false} FoldDos(t: Text)
    requires NoCR(t)
    ensures Fold(Dos(t)) == t
  {
    if t != [] {
      FoldDos(t[1..]);
      var d := Dos(t);
      if t[0] == LF {
        assert d[2..] == Dos(t[1..]);
      } else {
        assert d[1..] == Dos(t[1..]);
      }
      assert t == [t[0]] + t[1..];
    }
  }

  /** How a character shows in F^ and to READ of a CHAR: a line marker is a
      blank. */
  function Shown(c: Byte): Byte { if c == LF then BLANK else c }

  // ---- the eager machine ----

  datatype FileOp =
    | Look
    | AtEof
    | AtEoln
    | Get
    | NextChar
    | PeekChar
    | ReadChar
    | ReadLn
    | ReadLString(cap: nat)
    | ReadInt(bits: IntSize)
    | ReadPtr

  datatype IntSize = B16 | B32 | B64

  datatype Obs =
    | Undefined
    | Flag(b: bool)
    | Done
    | Char(c: int)
    | Str(s: Text, len: nat)
    | Number(v: int)
    | Error(code: int)
    | Died

  /** The text up to the first line marker. */
  function Line(t: Text): (l: Text)
    ensures |l| <= |t| && l == t[..|l|] && LF !in l
    ensures |l| < |t| ==> t[|l|] == LF
  {
    if t == [] || t[0] == LF then [] else [t[0]] + Line(t[1..])
  }

  function AfterLine(t: Text): Text {
    var n := |Line(t)|;
    if n < |t| then t[n + 1..] else []
  }

  function Min(a: nat, b: nat): nat { if a < b then a else b }

  /** One operation on the whole remaining text. A trapped failure reports its
      code; an untrapped one ends the program. */
  function Eager(t: Text, trap: bool, op: FileOp): (Text, Obs) {
    match op
    case Look => (t, if t == [] then Undefined else Char(Shown(t[0])))
    case AtEof => (t, Flag(t == []))
    case AtEoln => (t, if t == [] then Died else Flag(t[0] == LF))
    case Get => if t == [] then (t, Failure(trap, 3)) else (t[1..], Done)
    case NextChar => if t == [] then (t, Char(EOF)) else (t[1..], Char(t[0]))
    case PeekChar => (t, Char(if t == [] then EOF else t[0]))
    case ReadChar => if t == [] then (t, Died) else (t[1..], Char(Shown(t[0])))
    case ReadLn => (AfterLine(t), Done)
    case ReadLString(cap) =>
      var l := Line(t);
      if |l| == |t| then ([], Died) else (t[|l|..], Str(l[..Min(|l|, cap)], Min(|l|, cap)))
    case ReadInt(bits) => Report(ScanDecimal(t, bits), trap)
    case ReadPtr => Report(ScanPtr(t), trap)
  }

  /** What a reader makes of a scan. */
  function Report(s: Scan, trap: bool): (Text, Obs) {
    match s
    case NoInput => ([], Died)
    case Malformed(rest) => (rest, Failure(trap, 14))
    case OutOfRange(rest) => (rest, Failure(trap, 14))
    case Scanned(v, rest) => (rest, Number(v))
  }

  function Failure(trap: bool, code: int): Obs { if trap then Error(code) else Died }

  /** A whole program of operations; it ends where one of them dies. */
  function EagerRun(t: Text, trap: bool, ops: seq<FileOp>): (Text, seq<Obs>)
    decreases |ops|
  {
    if ops == [] then (t, [])
    else
      var (t1, o) := Eager(t, trap, ops[0]);
      if o.Died? then (t1, [o])
      else
        var (t2, os) := EagerRun(t1, trap, ops[1..]);
        (t2, [o] + os)
  }

  /** Which family of readers is asking: the bare READ/EOF/EOLN of readq.c, or
      the FCB paths of fileops.c. */
  datatype Source = Bare | Fcb

  /** One operation by one family; F^ and GET belong to the FCB. Failures of
      the bare readers are never trapped. */
  datatype Call = Call(src: Source, op: FileOp)

  predicate Legal(c: Call) { c.src.Bare? ==> !c.op.Look? && !c.op.Get? }

  /** A whole program of calls in any interleaving, on one text. */
  function MixedRun(t: Text, trap: bool, calls: seq<Call>): (Text, seq<Obs>)
    decreases |calls|
  {
    if calls == [] then (t, [])
    else
      var (t1, o) := Eager(t, trap && calls[0].src.Fcb?, calls[0].op);
      if o.Died? then (t1, [o])
      else
        var (t2, os) := MixedRun(t1, trap, calls[1..]);
        (t2, [o] + os)
  }

  function Ops(calls: seq<Call>): seq<FileOp> {
    seq(|calls|, i requires 0 <= i < |calls| => calls[i].op)
  }

  /** Without trapping, it makes no difference which family makes each call. */
  lemma {:induction false} FamilyIrrelevant(t: Text, calls: seq<Call>)
    ensures MixedRun(t, false, calls) == EagerRun(t, false, Ops(calls))
    decreases |calls|
  {
    if calls != [] {
      var (t1, o) := Eager(t, false, calls[0].op);
      FamilyIrrelevant(t1, calls[1..]);
      assert Ops(calls)[1..] == Ops(calls[1..]);
    }
  }

  predicate Suffix(r: Text, t: Text) { |r| <= |t| && r == t[|t| - |r|..] }

  lemma SuffixTrans(a: Text, b: Text, c: Text)
    requires Suffix(a, b) && Suffix(b, c)
    ensures Suffix(a, c)
  {
  }

  lemma {:induction false} SkipSuffix(t: Text)
    ensures Suffix(SkipSpace(t), t)
  {
    if t != [] && IsSpace(t[0]) { SkipSuffix(t[1..]); }
  }

  lemma DigitsSuffix(w: Text, negative: bool, bits: IntSize)
    ensures !DecimalDigits(w, negative, bits).NoInput? && Suffix(DecimalDigits(w, negative, bits).rest, w)
  {
  }

  lemma PtrDigitsSuffix(w: Text, base: nat, negative: bool, seen: bool)
    ensures !PtrDigits(w, base, negative, seen).NoInput? && Suffix(PtrDigits(w, base, negative, seen).rest, w)
  {
  }

  lemma ScanSuffix(t: Text, bits: IntSize)
    ensures ScanDecimal(t, bits).NoInput? || Suffix(ScanDecimal(t, bits).rest, t)
    ensures ScanPtr(t).NoInput? || Suffix(ScanPtr(t).rest, t)
  {
    hide DecimalDigits, PtrDigits, SkipSpace;
    SkipSuffix(t);
    var u := SkipSpace(t);
    if u != [] {
      var w, neg := if IsSign(u[0]) then u[1..] else u, u[0] == 45;
      assert Suffix(w, u);
      SuffixTrans(w, u, t);
      DigitsSuffix(w, neg, bits);
      SuffixTrans(DecimalDigits(w, neg, bits).rest, w, t);
      PtrSuffix(w, neg);
      SuffixTrans(PtrAfterSign(w, neg).rest, w, t);
    }
  }

  lemma PtrSuffix(w: Text, negative: bool)
    ensures !PtrAfterSign(w, negative).NoInput? && Suffix(PtrAfterSign(w, negative).rest, w)
  {
    hide PtrDigits;
    if w == [] || w[0] != 48 {
      PtrDigitsSuffix(w, 10, negative, false);
    } else if |w| > 1 && (w[1] == 120 || w[1] == 88) {
      var x := w[2..];
      PtrDigitsSuffix(x, 16, negative, true);
      SuffixTrans(PtrDigits(x, 16, negative, true).rest, x, w);
    } else {
      var x := w[1..];
      PtrDigitsSuffix(x, 8, negative, true);
      SuffixTrans(PtrDigits(x, 8, negative, true).rest, x, w);
    }
  }

  /** Every operation leaves a suffix of the text it found: characters are
      consumed in order, each once. */
  lemma EagerSuffix(t: Text, trap: bool, op: FileOp)
    ensures Suffix(Eager(t, trap, op).0, t)
  {
    match op
    case ReadInt(bits) => ScanSuffix(t, bits);
    case ReadPtr => ScanSuffix(t, B64);
    case _ =>
  }

  lemma {:induction false} MixedSuffix(t: Text, trap: bool, calls: seq<Call>)
    ensures Suffix(MixedRun(t, trap, calls).0, t)
    decreases |calls|
  {
    if calls != [] {
      var (t1, o) := Eager(t, trap && calls[0].src.Fcb?, calls[0].op);
      EagerSuffix(t, trap && calls[0].src.Fcb?, calls[0].op);
      MixedSuffix(t1, trap, calls[1..]);
      if !o.Died? { SuffixTrans(MixedRun(t1, trap, calls[1..]).0, t1, t); }
    }
  }

  // ---- numbers ----

  predicate IsSpace(c: int) { c == 32 || 9 <= c <= 13 }
  predicate IsDigit(c: int) { 48 <= c <= 57 }

  function SkipSpace(t: Text): (r: Text)
    ensures |r| <= |t| && (r != [] ==> !IsSpace(r[0]))
  {
    if t != [] && IsSpace(t[0]) then SkipSpace(t[1..]) else t
  }

  /** The longest prefix of digits in the given base. */
  function Run(t: Text, base: nat): (d: Text)
    ensures |d| <= |t| && d == t[..|d|] && forall i :: 0 <= i < |d| ==> IsDigitIn(d[i], base)
    ensures |d| < |t| ==> !IsDigitIn(t[|d|], base)
  {
    if t == [] || !IsDigitIn(t[0], base) then [] else [t[0]] + Run(t[1..], base)
  }

  predicate IsDigitIn(c: int, base: nat) {
    if base == 16 then IsDigit(c) || 97 <= c <= 102 || 65 <= c <= 70
    else if base == 8 then 48 <= c <= 55
    else IsDigit(c)
  }

  function DigitValue(c: int): nat {
    if IsDigit(c) then c - 48 else if 97 <= c <= 102 then c - 87 else if 65 <= c <= 70 then c - 55 else 0
  }

  /** The number a string of digits denotes. */
  function Value(d: Text, base: nat): nat {
    if d == [] then 0 else Value(d[..|d| - 1], base) * base + DigitValue(d[|d| - 1])
  }

  datatype Scan = NoInput | Malformed(rest: Text) | OutOfRange(rest: Text) | Scanned(v: int, rest: Text)

  predicate FitsBits(bits: IntSize, v: int) {
    match bits
    case B16 => -0x8000 <= v < 0x8000
    case B32 => -0x8000_0000 <= v < 0x8000_0000
    case B64 => -0x8000_0000_0000_0000 <= v < 0x8000_0000_0000_0000
  }

  predicate IsSign(c: int) { c == 43 || c == 45 }

  /** An optional sign and a run of decimal digits after blank space, read
      exactly; the first character after the run stays. */
  function ScanDecimal(t: Text, bits: IntSize): Scan {
    var u := SkipSpace(t);
    if u == [] then NoInput else DecimalDigits(if IsSign(u[0]) then u[1..] else u, u[0] == 45, bits)
  }

  function Signed(negative: bool, m: int): int { if negative then -m else m }

  function DecimalDigits(w: Text, negative: bool, bits: IntSize): Scan {
    var d := Run(w, 10);
    var v := Signed(negative, Value(d, 10));
    if d == [] then Malformed(w)
    else if FitsBits(bits, v) then Scanned(v, w[|d|..])
    else OutOfRange(w[|d|..])
  }

  /** A pointer: an optional sign and a magnitude below 2^64 in decimal, in
      octal after a leading 0, or in hexadecimal after 0x; a minus sign gives
      the two's complement. A bare 0 or 0x denotes zero. */
  function ScanPtr(t: Text): Scan {
    var u := SkipSpace(t);
    if u == [] then NoInput else PtrAfterSign(if IsSign(u[0]) then u[1..] else u, u[0] == 45)
  }

  function PtrAfterSign(w: Text, negative: bool): Scan {
    if w == [] || w[0] != 48 then PtrDigits(w, 10, negative, false)
    else if |w| > 1 && (w[1] == 120 || w[1] == 88) then PtrDigits(w[2..], 16, negative, true)
    else PtrDigits(w[1..], 8, negative, true)
  }

  const TwoTo64: nat := 0x1_0000_0000_0000_0000

  function PtrDigits(w: Text, base: nat, negative: bool, seen: bool): Scan {
    var d := Run(w, base);
    var m := Value(d, base);
    if d == [] && !seen then Malformed(w)
    else if m >= TwoTo64 then OutOfRange(w[|d|..])
    else Scanned(if negative && m > 0 then TwoTo64 - m else m, w[|d|..])
  }

  // ---- facts about digit strings ----

  /** The digits without leading zeros. */
  function Strip(d: Text): (s: Text)
    ensures |s| <= |d| && (s != [] ==> s[0] != 48)
  {
    if d != [] && d[0] == 48 then Strip(d[1..]) else d
  }

  lemma {:induction false} ValueSnoc(d: Text, c: Byte, base: nat)
    ensures Value(d + [c], base) == Value(d, base) * base + DigitValue(c)
  {
    assert (d + [c])[..|d|] == d;
  }

  lemma {:induction false} ValueZeros(d: Text, base: nat)
    requires d != [] && d[0] == 48
    ensures Value(d, base) == Value(d[1..], base)
  {
    if |d| == 1 {
      assert d[..0] == [];
    } else {
      var e := d[..|d| - 1];
      ValueZeros(e, base);
      assert e[1..] == d[1..][..|d| - 2];
    }
  }

  lemma {:induction false} StripValue(d: Text, base: nat)
    ensures Value(Strip(d), base) == Value(d, base)
  {
    if d != [] && d[0] == 48 {
      ValueZeros(d, base);
      StripValue(d[1..], base);
    }
  }

  lemma {:induction false} StripSnoc(d: Text, c: Byte)
    ensures Strip(d + [c]) == if Strip(d) == [] && c == 48 then [] else Strip(d) + [c]
  {
    if d == [] {
      assert d + [c] == [c];
      assert [c][1..] == [];
    } else if d[0] == 48 {
      StripSnoc(d[1..], c);
      assert (d + [c])[1..] == d[1..] + [c];
    }
  }

  function Power(b: nat, n: nat): nat { if n == 0 then 1 else b * Power(b, n - 1) }

  lemma {:induction false} PowerAtLeast(b: nat, m: nat, n: nat)
    requires b >= 1 && m <= n
    ensures 1 <= Power(b, m) <= Power(b, n)
    decreases n
  {
    if n > 0 {
      if m < n {
        PowerAtLeast(b, m, n - 1);
        assert b * Power(b, n - 1) >= Power(b, n - 1);
      } else {
        PowerAtLeast(b, m - 1, n - 1);
        assert b * Power(b, n - 1) >= 1;
      }
    }
  }

  /** A number written without leading zeros is at least base^(length - 1). */
  lemma {:induction false} LongIsLarge(d: Text, base: nat)
    requires d != [] && d[0] != 48 && base >= 1 && IsDigitIn(d[0], base) && (base == 8 || base == 10 || base == 16)
    ensures Value(d, base) >= Power(base, |d| - 1)
  {
    if |d| == 1 {
      assert d[..0] == [];
    } else {
      var e := d[..|d| - 1];
      LongIsLarge(e, base);
      assert Value(e, base) * base >= Power(base, |d| - 2) * base;
    }
  }

  /** 8^22 and 10^20 are beyond 64 bits, whatever the sign. */
  lemma PowerIsBig(base: nat, n: nat)
    requires base == 8 || base == 10 || base == 16
    requires n >= 29
    ensures Power(base, n) >= TwoTo64
  {
    var p := Power(base, 3);
    assert Power(base, 1) == base && Power(base, 2) == base * base && p == base * (base * base) >= 512;
    PowerAdd(base, 3, 3); PowerAdd(base, 6, 6); PowerAdd(base, 12, 12);
    assert Power(base, 6) >= 512 * 512 by { MulAtLeast(p, p, 512, 512); }
    assert Power(base, 12) >= 0x10_0000_0000 by { MulAtLeast(Power(base, 6), Power(base, 6), 512 * 512, 512 * 512); }
    assert Power(base, 24) >= TwoTo64 by { MulAtLeast(Power(base, 12), Power(base, 12), 0x10_0000_0000, 0x10_0000_0000); }
    PowerAtLeast(base, 24, n);
  }

  lemma MulAtLeast(a: nat, b: nat, x: nat, y: nat)
    requires a >= x && b >= y
    ensures a * b >= x * y
  {
    assert a * b >= x * b;
    assert x * b >= x * y;
  }

  lemma {:induction false} PowerAdd(b: nat, m: nat, n: nat)
    ensures Power(b, m + n) == Power(b, m) * Power(b, n)
  {
    if m > 0 {
      PowerAdd(b, m - 1, n);
      assert b * (Power(b, m - 1) * Power(b, n)) == (b * Power(b, m - 1)) * Power(b, n);
    }
  }

  // ---- what the scanners promise ----

  /** The decimal digits of a natural number. */
  function Decimal(v: nat): (d: Text)
    ensures d != [] && forall i :: 0 <= i < |d| ==> IsDigit(d[i])
    ensures v > 0 ==> d[0] != 48
    ensures v == 0 ==> d == [48]
  {
    if v < 10 then [48 + v] else Decimal(v / 10) + [48 + v % 10]
  }

  lemma {:induction false} DecimalValue(v: nat)
    ensures Value(Decimal(v), 10) == v
  {
    var d := Decimal(v);
    if v < 10 {
      assert d[..0] == [];
    } else {
      DecimalValue(v / 10);
      ValueSnoc(Decimal(v / 10), 48 + v % 10, 10);
    }
  }

  /** A digit run followed by something else is the whole run. */
  lemma {:induction false} RunExact(d: Text, rest: Text, base: nat)
    requires forall i :: 0 <= i < |d| ==> IsDigitIn(d[i], base)
    requires rest == [] || !IsDigitIn(rest[0], base)
    ensures Run(d + rest, base) == d
  {
    if d == [] {
      assert d + rest == rest;
    } else {
      RunExact(d[1..], rest, base);
      assert (d + rest)[1..] == d[1..] + rest;
      assert d == [d[0]] + d[1..];
    }
  }

  /** What WRITE prints for a pointer, in unsigned decimal, reads back. */
  lemma PtrRoundTrip(v: nat, rest: Text)
    requires v < TwoTo64 && (rest == [] || !IsDigit(rest[0]))
    requires v == 0 && rest != [] ==> rest[0] != 120 && rest[0] != 88
    ensures ScanPtr(Decimal(v) + rest) == Scanned(v, rest)
  {
    var d := Decimal(v);
    var t := d + rest;
    assert t[0] == d[0] && SkipSpace(t) == t;
    if v == 0 {
      assert t[1..] == rest;
      assert Run(rest, 8) == [];
      assert rest[0..] == rest;
    } else {
      RunExact(d, rest, 10);
      DecimalValue(v);
      assert t[|d|..] == rest;
    }
  }

  /** A number in range, written in decimal with any sign and any number of
      leading zeros after any blank space, reads back exactly. */
  lemma DigitsRoundTrip(m: nat, negative: bool, bits: IntSize, rest: Text)
    requires FitsBits(bits, Signed(negative, m)) && (rest == [] || !IsDigit(rest[0]))
    ensures DecimalDigits(Decimal(m) + rest, negative, bits) == Scanned(Signed(negative, m), rest)
  {
    var d := Decimal(m);
    RunExact(d, rest, 10);
    DecimalValue(m);
    assert (d + rest)[|d|..] == rest;
  }

  lemma DecimalRoundTrip(v: int, bits: IntSize, rest: Text)
    requires FitsBits(bits, v) && (rest == [] || !IsDigit(rest[0]))
    ensures var d := Decimal(if v < 0 then -v else v);
            ScanDecimal((if v < 0 then [45] else []) + d + rest, bits) == Scanned(v, rest)
  {
    hide Run, Decimal, DecimalDigits;
    var m := if v < 0 then -v else v;
    var d := Decimal(m);
    var t := (if v < 0 then [45] else []) + d + rest;
    DigitsRoundTrip(m, v < 0, bits, rest);
    if v < 0 {
      assert t[0] == 45 && t[1..] == d + rest;
    } else {
      assert t == d + rest && t[0] == d[0];
    }
    assert SkipSpace(t) == t;
  }

  /** Line ends do not matter to the integer readers: a file with CR LF pairs
      gives the same number as the raw bytes. */
  lemma FoldedDecimal(t: Text, bits: IntSize)
    ensures SameNumber(ScanDecimal(Fold(t), bits), ScanDecimal(t, bits))
  {
    hide Run, DecimalDigits, SameNumber;
    FoldSkip(t);
    var u := SkipSpace(t);
    FoldHead(u);
    if u != [] {
      var w := if IsSign(u[0]) then u[1..] else u;
      FoldedDigits(w, u[0] == 45, bits);
    } else {
      SameItself(NoInput);
    }
  }

  predicate SameNumber(a: Scan, b: Scan) {
    && a.NoInput? == b.NoInput? && a.Malformed? == b.Malformed? && a.OutOfRange? == b.OutOfRange?
    && (a.Scanned? ==> a.v == b.v)
  }

  lemma SameItself(a: Scan)
    ensures SameNumber(a, a)
  {
  }

  lemma FoldedDigits(w: Text, negative: bool, bits: IntSize)
    ensures SameNumber(DecimalDigits(Fold(w), negative, bits), DecimalDigits(w, negative, bits))
  {
    FoldRun(w, 10);
  }

  lemma FoldHead(t: Text)
    ensures Fold(t) == [] <==> t == []
    ensures t != [] && t[0] != CR ==> Fold(t)[0] == t[0] && Fold(t)[1..] == Fold(t[1..])
    ensures t != [] && t[0] == CR ==> Fold(t)[0] == CR || Fold(t)[0] == LF
  {
  }

  lemma {:induction false} FoldSkip(t: Text)
    ensures SkipSpace(Fold(t)) == Fold(SkipSpace(t))
    decreases |t|
  {
    FoldHead(t);
    if t != [] && IsSpace(t[0]) {
      if t[0] == CR && |t| > 1 && t[1] == LF {
        FoldSkip(t[2..]);
        assert t[1..][1..] == t[2..];
        assert Fold(t)[1..] == Fold(t[2..]);
        assert SkipSpace(t) == SkipSpace(t[1..]) == SkipSpace(t[2..]);
      } else {
        FoldSkip(t[1..]);
        assert Fold(t)[1..] == Fold(t[1..]);
      }
    }
  }

  lemma {:induction false} FoldRun(w: Text, base: nat)
    ensures Run(Fold(w), base) == Run(w, base)
  {
    FoldHead(w);
    if w != [] && IsDigitIn(w[0], base) { FoldRun(w[1..], base); }
  }

  /** So does the pointer a text holds. */
  lemma FoldedPtr(t: Text)
    ensures SameNumber(ScanPtr(Fold(t)), ScanPtr(t))
  {
    hide PtrDigits, PtrAfterSign, SameNumber;
    FoldSkip(t);
    var u := SkipSpace(t);
    FoldHead(u);
    if u == [] {
      SameItself(NoInput);
    } else {
      FoldedPrefix(if IsSign(u[0]) then u[1..] else u, u[0] == 45);
    }
  }

  lemma FoldedPrefix(w: Text, negative: bool)
    ensures SameNumber(PtrAfterSign(Fold(w), negative), PtrAfterSign(w, negative))
  {
    hide PtrDigits, SameNumber, Fold;
    FoldHead(w);
    if w == [] || w[0] != 48 {
      FoldedPtrDigits(w, 10, negative, false);
    } else {
      var x := w[1..];
      FoldHead(x);
      FoldedPtrDigits(x, 8, negative, true);
      if x != [] && (x[0] == 120 || x[0] == 88) {
        assert w[2..] == x[1..] && Fold(w)[2..] == Fold(x)[1..];
        FoldedPtrDigits(x[1..], 16, negative, true);
      }
    }
  }

  lemma FoldedPtrDigits(w: Text, base: nat, negative: bool, seen: bool)
    ensures SameNumber(PtrDigits(Fold(w), base, negative, seen), PtrDigits(w, base, negative, seen))
  {
    FoldRun(w, base);
  }
}
