/** String literals: the Pascal lexer's lex_string (bootstrap/lex.c) and the C
    literals of c_string_bytes (bootstrap/emit.c), with C's own reading of
    them by sections 6.4.4.4 and 6.4.5 of ISO/IEC 9899:1999. */
module StringLiteral {
  import opened TextSpec

  const QUOTE: Byte := 39
  const DQUOTE: Byte := 34
  const BACKSLASH: Byte := 92

  // ---- the Pascal literal ----

  /** Pascal's spelling of the inside of a literal: each quote twice. */
  function Doubled(b: Text): Text { if b == [] then [] else Cell(b[0]) + Doubled(b[1..]) }

  function Cell(c: Byte): Text { if c == QUOTE then [QUOTE, QUOTE] else [c] }

  /** The text does not go on with a quote. */
  predicate Closed(rest: Text) { rest == [] || rest[0] != QUOTE }

  datatype Token = CharToken(value: Byte) | StringToken(bytes: Text)

  /** A single quoted character is a CHAR, not a string. */
  function TokenOf(b: Text): Token { if |b| == 1 then CharToken(b[0]) else StringToken(b) }

  datatype Body = Unterminated | Body(bytes: Text, rest: Text)

  /** c before what is read from a literal's inside. */
  function Before(c: Byte, r: Body): Body { if r.Body? then Body([c] + r.bytes, r.rest) else Unterminated }

  /** A quote that no second quote follows. */
  predicate Closes(t: Text) { t != [] && t[0] == QUOTE && Closed(t[1..]) }

  /** What follows the opening quote, up to the quote that closes it. */
  function Inside(t: Text): Body {
    if t == [] || t[0] == LF then Unterminated
    else if Closes(t) then Body([], t[1..])
    else Before(t[0], Inside(t[|Cell(t[0])|..]))
  }

  lemma InsideCell(c: Byte, u: Text)
    requires c != LF
    ensures Inside(Cell(c) + u) == Before(c, Inside(u))
  {
    hide Before;
    var t := Cell(c) + u;
    assert t[0] == c && t[|Cell(c)|..] == u;
    assert c == QUOTE ==> t[1..][0] == QUOTE;
  }

  /** A text that neither ends nor breaks off goes on with a cell. */
  lemma CellAhead(t: Text)
    requires t != [] && !Closes(t)
    ensures |t| >= |Cell(t[0])| && t == Cell(t[0]) + t[|Cell(t[0])|..]
  {
  }

  /** The quote-doubled spelling of newline-free bytes is lexed back. */
  lemma {:induction false} InsideDoubled(b: Text, rest: Text)
    requires LF !in b && Closed(rest)
    ensures Inside(Doubled(b) + ([QUOTE] + rest)) == Body(b, rest)
  {
    var close := [QUOTE] + rest;
    if b == [] {
      assert Doubled(b) + close == close && close[1..] == rest;
    } else {
      hide Inside;
      InsideDoubled(b[1..], rest);
      InsideCell(b[0], Doubled(b[1..]) + close);
      assert Doubled(b) + close == Cell(b[0]) + (Doubled(b[1..]) + close);
      assert [b[0]] + b[1..] == b;
    }
  }

  /** Nothing else is lexed: the text read was such a spelling. */
  lemma {:induction false} InsideOnly(t: Text)
    requires Inside(t).Body?
    ensures LF !in Inside(t).bytes && Closed(Inside(t).rest)
    ensures t == Doubled(Inside(t).bytes) + ([QUOTE] + Inside(t).rest)
  {
    hide Inside, Doubled, Cell, Closes;
    InsideTurn(t);
    if Closes(t) {
      Ending(t);
    } else {
      var u := t[|Cell(t[0])|..];
      InsideOnly(u);
      CellAhead(t);
      OneMore(t[0], Inside(u).bytes);
      assert t == (Cell(t[0]) + Doubled(Inside(u).bytes)) + ([QUOTE] + Inside(u).rest);
    }
  }

  lemma InsideTurn(t: Text)
    requires Inside(t).Body?
    ensures t != []
    ensures Closes(t) ==> Inside(t) == Body([], t[1..])
    ensures !Closes(t) ==> t[0] != LF && 0 < |Cell(t[0])| <= |t| && Inside(t) == Before(t[0], Inside(t[|Cell(t[0])|..]))
  {
  }

  lemma Ending(t: Text)
    requires Closes(t)
    ensures Closed(t[1..]) && t == Doubled([]) + ([QUOTE] + t[1..])
  {
  }

  lemma OneMore(c: Byte, b: Text)
    ensures Doubled([c] + b) == Cell(c) + Doubled(b)
  {
    assert ([c] + b)[1..] == b;
  }

  /** In characters: between apostrophes every byte stands for itself, two
      apostrophes for one, and a literal does not go over a line end. */
  lemma InsideMeans(c: Byte, t: Text)
    ensures Inside(['\'' as int, '\'' as int] + t) == Before('\'' as int, Inside(t))
    ensures c != '\'' as int && c != 10 ==> Inside([c] + t) == Before(c, Inside(t))
    ensures t == [] || t[0] != '\'' as int ==> Inside(['\'' as int] + t) == Body([], t)
    ensures Inside([10] + t) == Unterminated && Inside([]) == Unterminated
  {
    InsideCell(39, t);
    if c != 39 && c != 10 { InsideCell(c, t); }
    assert ([39] + t)[1..] == t;
  }

  class Lexer {
    const src: Text
    var pos: nat

    constructor (src: Text)
      ensures this.src == src && pos == 0
    {
      this.src := src;
      pos := 0;
    }

    /** At an opening quote. On success the token holds exactly the bytes whose
        quote-doubled spelling was read, and pos is behind the closing quote. */
    method LexString() returns (ok: bool, t: Token)
      requires pos < |src| && src[pos] == '\'' as int
      modifies this
      ensures ok == Inside(src[old(pos) + 1..]).Body?
      ensures ok ==> pos <= |src| && src[pos..] == Inside(src[old(pos) + 1..]).rest
      ensures ok ==> var b := Inside(src[old(pos) + 1..]).bytes; t == if |b| == 1 then CharToken(b[0]) else StringToken(b)
    {
      hide Inside, Closes;
      var b: Text := [];
      pos := pos + 1;
      ghost var all := Inside(src[pos..]);
      t := CharToken(0);
      while true
        invariant old(pos) < pos <= |src|
        invariant all == After(b, Inside(src[pos..]))
        decreases |src| - pos
      {
        Stops(src, pos);
        if pos >= |src| || src[pos] == LF { return false, t; }
        var c := src[pos];
        ghost var i := pos;
        pos := pos + 1;
        if c == QUOTE {
          if pos < |src| && src[pos] == QUOTE { pos := pos + 1; } else { break; }
        }
        GoesOn(src, i, pos, b);
        b := b + [c];
      }
      return true, TokenOf(b);
    }
  }

  /** b before what is read from a literal's inside. */
  function After(b: Text, r: Body): Body { if r.Body? then Body(b + r.bytes, r.rest) else Unterminated }

  /** Where the scan ends, for better or worse. */
  lemma Stops(src: Text, i: nat)
    requires i <= |src|
    ensures i == |src| || src[i] == LF ==> Inside(src[i..]) == Unterminated
    ensures i < |src| && src[i] == QUOTE && (i + 1 == |src| || src[i + 1] != QUOTE) ==> Inside(src[i..]) == Body([], src[i + 1..])
  {
  }

  /** One turn of the scan moves a byte from the text into the buffer. */
  lemma GoesOn(src: Text, i: nat, k: nat, b: Text)
    requires i < k <= |src| && src[i] != LF && src[i..k] == Cell(src[i])
    ensures After(b, Inside(src[i..])) == After(b + [src[i]], Inside(src[k..]))
  {
    hide Inside;
    InsideCell(src[i], src[k..]);
    assert src[i..] == Cell(src[i]) + src[k..];
    assert Inside(src[k..]).Body? ==> b + ([src[i]] + Inside(src[k..]).bytes) == (b + [src[i]]) + Inside(src[k..]).bytes;
  }

  // ---- C's reading of a string literal ----

  predicate Octal(c: Byte) { 48 <= c <= 55 }

  function OctalRun(t: Text): (n: nat)
    ensures n <= |t| && n <= 3
  {
    if t == [] || !Octal(t[0]) then 0
    else if |t| == 1 || !Octal(t[1]) then 1
    else if |t| == 2 || !Octal(t[2]) then 2
    else 3
  }

  function OctalValue(t: Text): nat {
    if t == [] then 0 else OctalValue(t[..|t| - 1]) * 8 + if Octal(t[|t| - 1]) then t[|t| - 1] - 48 else 0
  }

  datatype Contents = Invalid | Contents(bytes: Text)

  /** The characters up to the closing quotation mark, which ends the text. An
      octal escape takes as many octal digits as there are, up to three. The
      array ends with the null character of 6.4.5. */
  function CChars(t: Text): Contents {
    if t == [] || t[0] == LF then Invalid
    else if t[0] == DQUOTE then if |t| == 1 then Contents([0]) else Invalid
    else if t[0] != BACKSLASH then Prepend(t[0], CChars(t[1..]))
    else if |t| == 1 then Invalid
    else if Octal(t[1]) then
      var n := OctalRun(t[1..]);
      Prepend(OctalValue(t[1..1 + n]), CChars(t[1 + n..]))
    else if Simple(t[1]).Contents? then Prepend(Simple(t[1]).bytes[0], CChars(t[2..]))
    else Invalid
  }

  function Prepend(v: nat, c: Contents): Contents {
    if v < 256 && c.Contents? then Contents([v] + c.bytes) else Invalid
  }

  /** The simple escape sequences. */
  function Simple(c: Byte): (r: Contents)
    ensures r.Contents? ==> |r.bytes| == 1
  {
    if c == 39 || c == 34 || c == 63 || c == 92 then Contents([c])
    else if c == 97 then Contents([7])
    else if c == 98 then Contents([8])
    else if c == 102 then Contents([12])
    else if c == 110 then Contents([10])
    else if c == 114 then Contents([13])
    else if c == 116 then Contents([9])
    else if c == 118 then Contents([11])
    else Invalid
  }

  /** The array a C string literal denotes. */
  function CLiteral(t: Text): Contents {
    if t == [] || t[0] != DQUOTE then Invalid else CChars(t[1..])
  }

  // ---- the emitted literal ----

  predicate Plain(c: Byte) {
    97 <= c <= 122 || 65 <= c <= 90 || 48 <= c <= 57 || c == 32 || c == 95
  }

  /** "\\%03o" of a byte. */
  function Escape(c: Byte): Text { [BACKSLASH, 48 + c / 64, 48 + c / 8 % 8, 48 + c % 8] }

  function EmittedByte(c: Byte): Text { if Plain(c) then [c] else Escape(c) }

  function Emitted(s: Text): Text { if s == [] then [] else EmittedByte(s[0]) + Emitted(s[1..]) }

  lemma EscapeValue(c: Byte)
    ensures OctalValue([48 + c / 64, 48 + c / 8 % 8, 48 + c % 8]) == c
  {
    var d: Text := [48 + c / 64, 48 + c / 8 % 8, 48 + c % 8];
    assert d[..2] == [48 + c / 64, 48 + c / 8 % 8];
    assert d[..2][..1] == [48 + c / 64];
    assert [48 + c / 64][..0] == [];
    assert OctalValue([]) == 0;
    assert OctalValue([48 + c / 64]) == c / 64;
    assert OctalValue(d[..2]) == c / 64 * 8 + c / 8 % 8;
  }

  /** A byte is read as itself whatever comes next: three octal digits leave no
      room for a following one. */
  lemma ByteRead(c: Byte, rest: Text)
    ensures CChars(EmittedByte(c) + rest) == Prepend(c, CChars(rest))
    ensures CChars(Escape(c) + rest) == Prepend(c, CChars(rest))
  {
    var e := Escape(c) + rest;
    EscapeValue(c);
    assert e[1..4] == Escape(c)[1..];
    assert e[4..] == rest;
    assert OctalRun(e[1..]) == 3;
    assert ([c] + rest)[1..] == rest;
  }

  lemma NothingRead()
    ensures CChars([DQUOTE]) == Contents([0])
  {
  }

  lemma {:induction false} EmittedRead(s: Text)
    ensures CChars(Emitted(s) + [DQUOTE]) == Contents(s + [0])
  {
    hide CChars, EmittedByte;
    if s == [] {
      NothingRead();
      assert Emitted(s) + [DQUOTE] == [DQUOTE];
    } else {
      EmittedRead(s[1..]);
      var rest := Emitted(s[1..]) + [DQUOTE];
      ByteRead(s[0], rest);
      assert Emitted(s) + [DQUOTE] == EmittedByte(s[0]) + rest;
      assert [s[0]] + (s[1..] + [0]) == s + [0];
    }
  }

  function CStringText(s: Text, prefix: bool): Text
    requires prefix ==> |s| < 256
  {
    [DQUOTE] + (if prefix then Escape(|s|) else []) + Emitted(s) + [DQUOTE]
  }

  /** The emitted literal denotes the length byte, the bytes and a final null. */
  lemma LiteralRead(s: Text, prefix: bool)
    requires prefix ==> |s| < 256
    ensures CLiteral(CStringText(s, prefix)) == Contents((if prefix then [|s|] else []) + s + [0])
  {
    hide Escape, EmittedByte, CChars;
    EmittedRead(s);
    var rest := Emitted(s) + [DQUOTE];
    if prefix {
      ByteRead(|s|, rest);
      assert CStringText(s, prefix)[1..] == Escape(|s|) + rest;
    } else {
      assert CStringText(s, prefix)[1..] == rest;
    }
  }

  /** No character of the emitted text can start a trigraph or end its line. */
  lemma {:induction false} EmittedSafe(s: Text)
    ensures forall i :: 0 <= i < |Emitted(s)| ==> Harmless(Emitted(s)[i])
  {
    if s != [] {
      EmittedSafe(s[1..]);
      ByteSafe(s[0]);
    }
  }

  predicate Harmless(c: Byte) { Plain(c) || c == BACKSLASH }

  lemma ByteSafe(c: Byte)
    ensures forall i :: 0 <= i < |EmittedByte(c)| ==> Harmless(EmittedByte(c)[i])
    ensures forall i :: 0 <= i < |Escape(c)| ==> Harmless(Escape(c)[i])
  {
  }

  lemma TextSafe(s: Text, prefix: bool)
    requires prefix ==> |s| < 256
    ensures var t := CStringText(s, prefix); forall i :: 0 < i < |t| - 1 ==> Harmless(t[i])
  {
    hide Escape, Harmless, Emitted;
    EmittedSafe(s);
    if prefix { ByteSafe(|s|); }
  }

  lemma NothingEmitted()
    ensures Emitted([]) == []
  {
  }

  lemma {:induction false} EmittedSnoc(s: Text, c: Byte)
    ensures Emitted(s + [c]) == Emitted(s) + EmittedByte(c)
  {
    hide EmittedByte;
    if s == [] {
      assert [c][1..] == [] && s + [c] == [c];
      assert Emitted([c]) == EmittedByte(c) + Emitted([]);
    } else {
      EmittedSnoc(s[1..], c);
      assert (s + [c])[1..] == s[1..] + [c];
    }
  }

  /** The growing text buffer of the emitter. */
  class Buf {
    var p: Text

    constructor ()
      ensures p == []
    {
      p := [];
    }

    method Put(s: Text)
      modifies this
      ensures p == old(p) + s
    {
      p := p + s;
    }
  }

  method CStringBytes(s: Text, prefix: bool) returns (text: Text)
    requires prefix ==> |s| < 256
    ensures CLiteral(text) == Contents((if prefix then [|s|] else []) + s + [0])
    ensures |text| >= 2 && text[0] == '"' as int && text[|text| - 1] == '"' as int
    ensures forall i :: 0 < i < |text| - 1 ==> Readable(text[i])
  {
    hide CLiteral, CChars, Escape, Emitted, Harmless;
    var b := new Buf();
    b.Put([DQUOTE]);
    if prefix { b.Put(Escape(|s|)); }
    ghost var head := b.p;
    var i := 0;
    NothingEmitted();
    while i < |s|
      invariant 0 <= i <= |s|
      invariant b.p == head + Emitted(s[..i])
    {
      EmittedSnoc(s[..i], s[i]);
      assert s[..i + 1] == s[..i] + [s[i]];
      if Plain(s[i]) { b.Put([s[i]]); } else { b.Put(Escape(s[i])); }
      i := i + 1;
    }
    assert s[..i] == s;
    b.Put([DQUOTE]);
    LiteralRead(s, prefix);
    TextSafe(s, prefix);
    HarmlessReadable();
    assert b.p == CStringText(s, prefix);
    return b.p;
  }

  /** A letter, a digit, a blank, an underscore or a backslash. */
  predicate Readable(c: int) {
    || 'a' as int <= c <= 'z' as int || 'A' as int <= c <= 'Z' as int || '0' as int <= c <= '9' as int
    || c == ' ' as int || c == '_' as int || c == '\\' as int
  }

  lemma HarmlessReadable()
    ensures forall c: Byte :: Harmless(c) ==> Readable(c)
  {
  }
}
