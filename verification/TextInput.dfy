/** Pascal text input as runtime/fileops.c and runtime/readq.c run it: a file
    control block whose first GET is deferred, over a host stream that can take
    characters back, and the bare readers that share standard input
    with it. The file is in read mode. */
module TextInput {
  import opened TextSpec

  class Input {
    // the host stream
    var pushed: Text
    var rest: Text
    /** How many characters ungetc can hold: one is guaranteed. */
    const room: nat
    // the file control block
    var buffer: Byte
    var eof: bool
    var eoln: bool
    var pending: bool
    var touched: bool
    var errs: int
    var initck: bool
    const trap: bool

    ghost function Contents(): Text
      reads this
    {
      pushed + rest
    }

    /** The buffer holds the current component. */
    predicate Filled()
      reads this
    {
      !eof && !pending
    }

    ghost function Current(): Text
      reads this
    {
      if Filled() then [if eoln then LF else buffer] else []
    }

    /** The text still to be read, buffered component first. */
    ghost function Logical(): Text
      reads this
    {
      Current() + Fold(Contents())
    }

    /** What follows a bare carriage return just read: the end, or a character
        pushed back. */
    ghost predicate AfterCR()
      reads this
    {
      |pushed| <= 1 && (Contents() == [] || (pushed != [] && pushed[0] != LF))
    }

    /** At most one character is pushed back, or a bare carriage return handed
        back in front of one. */
    ghost predicate Pushable()
      reads this
    {
      room >= 1 && (|pushed| <= 1 || (room >= 2 && |pushed| == 2 && pushed[0] == CR && pushed[1] != LF))
    }

    /** The characters still to be read, as they are. */
    ghost function Raw(): Text
      reads this
    {
      Current() + Contents()
    }

    /** What a bare reader sees of them: all, unless the buffered component
        cannot be pushed back onto the stream. */
    ghost function Bared(): Text
      reads this
    {
      if |pushed| < room then Raw() else Contents()
    }

    /** The text each family of readers is given. */
    ghost function View(src: Source): Text
      reads this
    {
      if src.Bare? then Bared() else Logical()
    }

    ghost predicate Valid()
      reads this
    {
      && Pushable()
      && (eof ==> !pending && !eoln && Contents() == [])
      && (eoln ==> Filled() && buffer == BLANK)
      && (Filled() && !eoln ==> buffer != LF)
      && (Filled() && pushed != [] ==> buffer == CR && !eoln)
      && (Filled() && buffer == CR ==> AfterCR())
      && initck == Filled()
    }

    /** No carriage return is left to read. */
    ghost predicate Clean()
      reads this
    {
      NoCR(Contents()) && (Filled() ==> buffer != CR)
    }

    /** RESET: rewind, with the first GET deferred. */
    constructor (text: Text, trap: bool, room: nat)
      requires room >= 1
      ensures Valid() && Logical() == Fold(text) && Bared() == text && this.trap == trap && errs == 0
      ensures NoCR(text) ==> Clean()
    {
      pushed, rest := [], text;
      this.trap, this.room, errs := trap, room, 0;
      buffer, touched := 0, false;
      eof, eoln, pending, initck := false, false, true, false;
      new;
      assert Contents() == text;
    }

    // ---- the host stream ----

    method Getc() returns (c: int)
      modifies `pushed, `rest
      ensures if old(Contents()) == [] then c == EOF && Contents() == []
              else c == old(Contents())[0] && Contents() == old(Contents())[1..]
      ensures pushed == if old(pushed) == [] then [] else old(pushed)[1..]
    {
      if pushed != [] {
        c := pushed[0];
        pushed := pushed[1..];
      } else if rest != [] {
        c := rest[0];
        rest := rest[1..];
      } else {
        c := EOF;
      }
    }

    /** ungetc: nothing happens when the stream can hold no more. */
    method Ungetc(c: Byte)
      modifies `pushed
      ensures pushed == if |old(pushed)| < room then [c] + old(pushed) else old(pushed)
      ensures Contents() == if |old(pushed)| < room then [c] + old(Contents()) else old(Contents())
    {
      if |pushed| < room { pushed := [c] + pushed; }
    }

    /** text_getc: CR LF becomes one marker. */
    method TextGetc() returns (c: int)
      requires Pushable()
      modifies `pushed, `rest
      ensures if old(Contents()) == [] then c == EOF && Contents() == []
              else 0 <= c < 256 && Fold(old(Contents())) == [c] + Fold(Contents())
      ensures if c == CR then AfterCR() else pushed == []
      ensures old(NoCR(Contents())) ==> NoCR(Contents()) && c != CR
    {
      ghost var s := Contents();
      c := Getc();
      if c != CR { return; }
      var next := Getc();
      if next == LF {
        assert Contents() == s[2..];
        return LF;
      }
      if next != EOF { Ungetc(next); }
      assert Contents() == s[1..];
    }

    // ---- the file control block ----

    method SetFlags(eof: bool, eoln: bool, pending: bool)
      modifies `eof, `eoln, `pending, `initck
      ensures this.eof == eof && this.eoln == eoln && this.pending == pending && initck == (!eof && !pending)
    {
      this.eof, this.eoln, this.pending := eof, eoln, pending;
      initck := !eof && !pending;
    }

    /** io_error: record a trapped error, or die. */
    method IoError(code: int) returns (o: Obs)
      modifies `errs
      ensures o == Failure(trap, code) && (trap ==> errs == code)
    {
      if trap {
        errs := code;
        o := Error(code);
      } else {
        o := Died;
      }
    }

    /** raw_get: fill the buffer with the next component. */
    method RawGet(allowEof: bool) returns (o: Obs)
      requires Valid() && (pending || !allowEof)
      modifies this
      ensures Valid()
      ensures if !allowEof && old(eof) then o == Failure(trap, 3) && Logical() == old(Logical())
              else o == Done && !pending && Logical() == Fold(old(Contents()))
      ensures old(Clean()) ==> Clean()
    {
      if !allowEof && eof {
        o := IoError(3);
        return;
      }
      var c := TextGetc();
      if c == EOF {
        SetFlags(true, false, false);
      } else {
        buffer := if c == LF then BLANK else c;
        SetFlags(false, c == LF, false);
      }
      touched := false;
      o := Done;
    }

    /** force_fill: the deferred GET, when something first needs it. */
    method ForceFill()
      requires Valid()
      modifies this
      ensures Valid() && !pending && Logical() == old(Logical()) && (old(Clean()) ==> Clean())
      ensures eof <==> Logical() == []
    {
      if pending {
        var _ := RawGet(true);
      }
    }

    /** fcb_next_char: consume a buffered component before the stream. */
    method FcbNext() returns (c: int)
      requires Valid()
      modifies this
      ensures Valid() && (old(Clean()) ==> Clean())
      ensures Taken(c, old(Logical()), Logical()) && (c != EOF ==> pending && if c == CR then AfterCR() else pushed == [])
      ensures old(Clean()) ==> c != CR
    {
      if eof { return EOF; }
      if !pending {
        c := buffer;
        if eoln { c := LF; }
        SetFlags(false, false, true);
        touched := false;
        return;
      }
      c := TextGetc();
      if c == EOF { SetFlags(true, false, false); }
    }

    /** fcb_unget_char: make a character just read the current component. */
    method FcbUnget(c: int)
      requires Valid() && (c == EOF || (0 <= c < 256 && pending && if c == CR then AfterCR() else pushed == []))
      modifies this
      ensures Valid() && Logical() == Returned(c, old(Logical())) && (old(Clean()) && c != CR ==> Clean())
    {
      if c == EOF { return; }
      buffer := if c == LF then BLANK else c;
      SetFlags(false, c == LF, false);
      touched := false;
    }

    // ---- sharing standard input ----

    /** pas_std_input_sync: before a bare reader runs, hand a buffered component
        back to the stream. It is lost exactly when the stream can hold no more,
        which takes a bare carriage return with a character pushed back behind
        it and a host with room for one. */
    method Sync()
      requires Valid()
      modifies this
      ensures Valid() && !Filled() && Contents() == old(Bared())
      ensures Logical() == old(Logical()) <==> !old(Filled() && |pushed| >= room)
      ensures old(Filled() && |pushed| >= room) ==> room == 1 && old(buffer) == CR
      ensures old(Clean()) ==> Clean()
    {
      if Filled() {
        var c := if eoln then LF else buffer;
        ghost var s := Contents();
        Ungetc(c);
        SetFlags(false, false, true);
        touched := false;
        assert ([c] + s)[1..] == s;
      }
    }

    /** std_getchar. */
    method StdGetchar() returns (c: int)
      requires Valid()
      modifies this
      ensures Valid() && !Filled() && Taken(c, old(Bared()), Bared()) && CanReturn(Bare, c)
      ensures old(Clean()) ==> Clean() && c != CR
    {
      Sync();
      c := Getc();
    }

    /** unread. */
    method Unread(c: int)
      requires Valid() && CanReturn(Bare, c)
      modifies this
      ensures Valid() && Bared() == Returned(c, old(Bared()))
      ensures old(Clean()) && c != CR ==> Clean()
    {
      if c != EOF { Ungetc(c); }
    }

    /** Whether c, just read, can be put back by the same family. */
    ghost predicate CanReturn(src: Source, c: int)
      reads this
    {
      c == EOF ||
      (0 <= c < 256 && pending &&
       (if src.Bare? then pushed == [] || (room >= 2 && c == CR && |pushed| == 1 && pushed[0] != LF)
        else if c == CR then AfterCR() else pushed == []))
    }

    method Next(src: Source) returns (c: int)
      requires Valid()
      modifies this
      ensures Valid() && (old(Clean()) ==> Clean())
      ensures Taken(c, old(View(src)), View(src)) && CanReturn(src, c) && (old(Clean()) ==> c != CR)
    {
      if src.Bare? {
        c := StdGetchar();
      } else {
        c := FcbNext();
      }
    }

    method Unget(src: Source, c: int)
      requires Valid() && CanReturn(src, c)
      modifies this
      ensures Valid() && View(src) == Returned(c, old(View(src))) && (old(Clean()) && c != CR ==> Clean())
    {
      if src.Bare? {
        Unread(c);
      } else {
        FcbUnget(c);
      }
    }

    /** Without carriage returns both families are given the same text. */
    lemma CleanView(src: Source)
      requires Valid() && Clean()
      ensures View(src) == Logical()
    {
      FoldPlain(Contents());
    }

    // ---- the readers ----

    method Peek(src: Source) returns (c: int)
      requires Valid()
      modifies this
      ensures Valid() && (old(Clean()) ==> Clean()) && View(src) == old(View(src))
      ensures c == if View(src) == [] then EOF else View(src)[0]
    {
      c := Next(src);
      Unget(src, c);
    }

    /** EOF: force_fill and the flag, or a peek at the bare stream. */
    method AtEof(src: Source) returns (b: bool)
      requires Valid()
      modifies this
      ensures Valid() && (old(Clean()) ==> Clean()) && View(src) == old(View(src))
      ensures b <==> View(src) == []
    {
      if src.Bare? {
        var c := Peek(src);
        b := c == EOF;
      } else {
        ForceFill();
        b := eof;
      }
    }

    method AtEoln(src: Source) returns (o: Obs)
      requires Valid()
      modifies this
      ensures Valid() && (old(Clean()) ==> Clean()) && View(src) == old(View(src))
      ensures o == if View(src) == [] then Died else Flag(View(src)[0] == LF)
    {
      if src.Bare? {
        var c := Peek(src);
        o := if c == EOF then Died else Flag(c == LF);
      } else {
        ForceFill();
        o := if eof then Died else Flag(eoln);
      }
    }

    /** F^. */
    method Look() returns (o: Obs)
      requires Valid()
      modifies this
      ensures Valid() && (old(Clean()) ==> Clean()) && Logical() == old(Logical())
      ensures o == if Logical() == [] then Undefined else Char(Shown(Logical()[0]))
    {
      ForceFill();
      o := if eof then Undefined else Char(buffer);
    }

    /** GET: the deferred one first, so that it advances past it. */
    method Get() returns (o: Obs)
      requires Valid()
      modifies this
      ensures Valid() && (old(Clean()) ==> Clean())
      ensures if old(Logical()) == [] then o == Failure(trap, 3) && Logical() == []
              else o == Done && Logical() == old(Logical())[1..]
    {
      ForceFill();
      o := RawGet(false);
    }

    method ReadChar(src: Source) returns (o: Obs)
      requires Valid()
      modifies this
      ensures Valid() && (old(Clean()) ==> Clean())
      ensures if old(View(src)) == [] then o == Died
              else o == Char(Shown(old(View(src))[0])) && View(src) == old(View(src))[1..]
    {
      var c := Next(src);
      o := if c == EOF then Died else if c == LF then Char(BLANK) else Char(c);
    }

    /** READLN's skip to the next line. */
    method ReadLn(src: Source)
      requires Valid()
      modifies this
      ensures Valid() && (old(Clean()) ==> Clean()) && View(src) == AfterLine(old(View(src)))
    {
      hide View, Valid, Clean, CanReturn, Line, Returned;
      ghost var t, k := View(src), 0;
      var c := Next(src);
      ReturnedHead(c, View(src), t, 0);
      while c != EOF && c != LF
        invariant Valid() && (old(Clean()) ==> Clean())
        invariant 0 <= k <= |t| && LF !in t[..k] && At(t, k, c, View(src))
        decreases |t| - k
      {
        c := Next(src);
        ReturnedHead(c, View(src), t, k + 1);
        k := k + 1;
      }
      LineAt(t, k);
    }

    /** READ of an LSTRING of capacity cap: the line marker stays. */
    method ReadLString(src: Source, cap: nat) returns (o: Obs)
      requires Valid()
      modifies this
      ensures Valid() && (old(Clean()) ==> Clean())
      ensures Meets(o, View(src), Eager(old(View(src)), trap, FileOp.ReadLString(cap)))
    {
      hide View, Valid, Clean, CanReturn, Returned, Eager;
      ghost var t := View(src);
      var n := 0;
      var buf: Text := [];
      var c := Next(src);
      ReturnedHead(c, View(src), t, 0);
      while c != EOF && c != LF
        invariant Valid() && (old(Clean()) ==> Clean()) && CanReturn(src, c) && (old(Clean()) ==> c != CR)
        invariant 0 <= n <= |t| && LF !in t[..n] && At(t, n, c, View(src))
        invariant buf == t[..Min(n, cap)]
        decreases |t| - n
      {
        BufferMore(t, n, cap);
        if n < cap { buf := buf + [c]; }
        c := Next(src);
        ReturnedHead(c, View(src), t, n + 1);
        n := n + 1;
      }
      StringRead(t, n, cap, trap);
      if c == EOF { return Died; }
      Unget(src, c);
      o := Str(buf, Min(n, cap));
    }

    // ---- numbers ----

    /** The first character that is not blank space, and its position in t. */
    method SkipBlanks(src: Source, ghost t: Text) returns (c: int, ghost n: nat)
      requires Valid() && t == View(src)
      modifies this
      ensures Valid() && (old(Clean()) ==> Clean()) && CanReturn(src, c) && (old(Clean()) ==> c != CR)
      ensures At(t, n, c, View(src)) && SkipSpace(t) == t[n..] && (c == EOF <==> SkipSpace(t) == [])
    {
      hide View, Valid, Clean, CanReturn, SkipSpace, Returned;
      n := 0;
      c := Next(src);
      ReturnedHead(c, View(src), t, 0);
      while c != EOF && IsSpace(c)
        invariant Valid() && (old(Clean()) ==> Clean()) && CanReturn(src, c) && (old(Clean()) ==> c != CR)
        invariant At(t, n, c, View(src)) && AllSpace(t, n)
        decreases |t| - n
      {
        c := Next(src);
        ReturnedHead(c, View(src), t, n + 1);
        n := n + 1;
      }
      SkipsTo(t, n);
    }

    /** The next character after position n. */
    method Step(src: Source, ghost t: Text, ghost n: nat) returns (c: int)
      requires Valid() && n < |t| && View(src) == t[n + 1..]
      modifies this
      ensures Valid() && (old(Clean()) ==> Clean()) && CanReturn(src, c) && (old(Clean()) ==> c != CR)
      ensures At(t, n + 1, c, View(src))
    {
      hide View, Valid, Clean, CanReturn, Returned;
      c := Next(src);
      ReturnedHead(c, View(src), t, n + 1);
    }

    /** The digits from position m on, of which c is the first: at most room of
        them, without leading zeros, go to the token. */
    method TakeDigits(src: Source, ghost t: Text, ghost m: nat, first: int, base: nat, room: nat, ghost clean: bool)
      returns (token: Text, overflow: bool, c: int, ghost k: nat)
      requires Valid() && At(t, m, first, View(src)) && CanReturn(src, first) && (clean ==> Clean() && first != CR)
      modifies this
      ensures Valid() && (clean ==> Clean()) && CanReturn(src, c) && (clean ==> c != CR)
      ensures m <= k && At(t, k, c, View(src)) && DigitsFrom(t, m, k, base) && (k < |t| ==> !IsDigitIn(t[k], base))
      ensures token == Keep(Strip(t[m..k]), room) && overflow == (|Strip(t[m..k])| > room)
    {
      hide View, Valid, Clean, CanReturn, Strip, Returned;
      token, overflow, c, k := [], false, first, m;
      StripNothing(t, m);
      while c != EOF && IsDigitIn(c, base)
        invariant Valid() && (clean ==> Clean()) && CanReturn(src, c) && (clean ==> c != CR)
        invariant m <= k && At(t, k, c, View(src)) && DigitsFrom(t, m, k, base)
        invariant token == Keep(Strip(t[m..k]), room) && overflow == (|Strip(t[m..k])| > room)
        decreases |t| - k
      {
        StripMore(t, m, k, room);
        if token == [] && !overflow && c == 48 {
        } else if |token| < room {
          token := token + [c];
        } else {
          overflow := true;
        }
        c := Step(src, t, k);
        k := k + 1;
      }
    }

    /** The signed decimal readers: a token of at most 31 characters, leading
        zeros not counted, converted by strtoll. */
    method ReadInt(src: Source, bits: IntSize) returns (o: Obs)
      requires Valid()
      modifies this
      ensures Valid() && (old(Clean()) ==> Clean())
      ensures Meets(o, View(src), Report(ScanDecimal(old(View(src)), bits), trap && src.Fcb?))
    {
      hide View, Valid, Clean, CanReturn, SkipSpace, Returned, DecimalDigits;
      ghost var t := View(src);
      var c, n := SkipBlanks(src, t);
      if c == EOF { return Died; }
      ghost var u := t[n..];
      if IsSign(c) {
        var first := Step(src, t, n);
        assert u[1..] == t[n + 1..];
        o := FinishInt(src, t, n + 1, first, c == 45, 30, bits, old(Clean()));
      } else {
        o := FinishInt(src, t, n, c, false, 31, bits, old(Clean()));
      }
    }

    /** The digits of a decimal, with room for so many in the token. */
    method FinishInt(src: Source, ghost t: Text, ghost m: nat, c: int, negative: bool, room: nat, bits: IntSize, ghost clean: bool) returns (o: Obs)
      requires Valid() && At(t, m, c, View(src)) && CanReturn(src, c) && (clean ==> Clean() && c != CR) && room >= 30
      modifies this
      ensures Valid() && (clean ==> Clean())
      ensures Meets(o, View(src), Report(DecimalDigits(t[m..], negative, bits), trap && src.Fcb?))
    {
      hide View, Valid, Clean, CanReturn, Returned, DecimalDigits, Strip, Keep, Strtoll, Run, Value;
      if c == EOF || !IsDigit(c) {
        NoDigits(t, m, negative, bits);
        AtReturned(t, m, c);
        Unget(src, c);
        o := Refuse(src, 14);
        return;
      }
      var token, overflow, stop, k := TakeDigits(src, t, m, c, 10, room, clean);
      DigitsAre(t, m, k, negative, bits);
      TokenExact(t[m..k], negative, room, bits);
      AtReturned(t, k, stop);
      Unget(src, stop);
      var (v, erange) := Strtoll(negative, if token == [] then [48] else token);
      if overflow || erange || !FitsBits(bits, v) {
        o := Refuse(src, 14);
      } else {
        o := Number(v);
      }
    }

    /** The pointer scanner's two loops from position m on: leading zeros, then
        digits, at most 31 of them into the token. */
    method TakePtrDigits(src: Source, ghost t: Text, ghost m: nat, first: int, base: nat, ghost clean: bool)
      returns (token: Text, overflow: bool, c: int, ghost k: nat)
      requires Valid() && At(t, m, first, View(src)) && CanReturn(src, first) && (clean ==> Clean() && first != CR)
      modifies this
      ensures Valid() && (clean ==> Clean()) && CanReturn(src, c) && (clean ==> c != CR)
      ensures m <= k && At(t, k, c, View(src)) && DigitsFrom(t, m, k, base) && (k < |t| ==> !IsDigitIn(t[k], base))
      ensures token == Keep(Strip(t[m..k]), 31) && overflow == (|Strip(t[m..k])| > 31)
    {
      hide View, Valid, Clean, CanReturn, Strip, Returned;
      token, overflow, c, k := [], false, first, m;
      StripNothing(t, m);
      while c == 48
        invariant Valid() && (clean ==> Clean()) && CanReturn(src, c) && (clean ==> c != CR)
        invariant m <= k && At(t, k, c, View(src)) && DigitsFrom(t, m, k, base) && Strip(t[m..k]) == []
        decreases |t| - k
      {
        StripMore(t, m, k, 31);
        c := Step(src, t, k);
        k := k + 1;
      }
      while c != EOF && IsDigitIn(c, base)
        invariant Valid() && (clean ==> Clean()) && CanReturn(src, c) && (clean ==> c != CR)
        invariant m <= k && At(t, k, c, View(src)) && DigitsFrom(t, m, k, base)
        invariant token == Keep(Strip(t[m..k]), 31) && overflow == (|Strip(t[m..k])| > 31) && (token == [] ==> c != 48)
        decreases |t| - k
      {
        StripMore(t, m, k, 31);
        if |token| < 31 { token := token + [c]; } else { overflow := true; }
        c := Step(src, t, k);
        k := k + 1;
      }
    }

    /** pas_scan_ptr_token. */
    method ReadPtr(src: Source) returns (o: Obs)
      requires Valid()
      modifies this
      ensures Valid() && (old(Clean()) ==> Clean())
      ensures Meets(o, View(src), Report(ScanPtr(old(View(src))), trap && src.Fcb?))
    {
      hide View, Valid, Clean, CanReturn, SkipSpace, Returned, PtrDigits;
      ghost var t := View(src);
      var c, n := SkipBlanks(src, t);
      if c == EOF { return Died; }
      ghost var u := t[n..];
      if IsSign(c) {
        var first := Step(src, t, n);
        assert u[1..] == t[n + 1..];
        o := PtrPrefix(src, t, n + 1, first, c == 45, old(Clean()));
      } else {
        o := PtrPrefix(src, t, n, c, false, old(Clean()));
      }
    }

    /** The base prefix of a pointer. */
    method PtrPrefix(src: Source, ghost t: Text, ghost m: nat, first: int, negative: bool, ghost clean: bool) returns (o: Obs)
      requires Valid() && At(t, m, first, View(src)) && CanReturn(src, first) && (clean ==> Clean() && first != CR)
      modifies this
      ensures Valid() && (clean ==> Clean())
      ensures Meets(o, View(src), Report(PtrAfterSign(t[m..], negative), trap && src.Fcb?))
    {
      hide View, Valid, Clean, CanReturn, Returned, PtrDigits;
      ghost var w := t[m..];
      if first != 48 {
        o := FinishPtr(src, t, m, first, 10, negative, false, clean);
        return;
      }
      var c := Step(src, t, m);
      assert w[1..] == t[m + 1..];
      if c == 120 || c == 88 {
        assert w[1] == c && w[2..] == t[m + 2..];
        c := Step(src, t, m + 1);
        o := FinishPtr(src, t, m + 2, c, 16, negative, true, clean);
      } else {
        assert |w| > 1 ==> w[1] == c;
        o := FinishPtr(src, t, m + 1, c, 8, negative, true, clean);
      }
    }

    method FinishPtr(src: Source, ghost t: Text, ghost m: nat, first: int, base: nat, negative: bool, seen: bool, ghost clean: bool) returns (o: Obs)
      requires base == 8 || base == 10 || base == 16
      requires Valid() && At(t, m, first, View(src)) && CanReturn(src, first) && (clean ==> Clean() && first != CR)
      modifies this
      ensures Valid() && (clean ==> Clean())
      ensures Meets(o, View(src), Report(PtrDigits(t[m..], base, negative, seen), trap && src.Fcb?))
    {
      hide View, Valid, Clean, CanReturn, Returned, PtrDigits, Strip, Keep, Value;
      var some := seen || (first != EOF && IsDigitIn(first, base));
      var token, overflow, stop, k := TakePtrDigits(src, t, m, first, base, clean);
      PtrDigitsAre(t, m, k, base, negative, seen);
      PtrTokenExact(t[m..k], base);
      AtReturned(t, k, stop);
      Unget(src, stop);
      if !some {
        o := Refuse(src, 14);
        return;
      }
      var v := Value(token, base);
      if overflow || v >= TwoTo64 {
        o := Refuse(src, 14);
      } else {
        o := Number(if negative && v > 0 then TwoTo64 - v else v);
      }
    }

    /** A malformed or out-of-range number: the bare readers die, the file ones
        report a trapped error. */
    method Refuse(src: Source, code: int) returns (o: Obs)
      requires Valid()
      modifies `errs
      ensures Valid() && o == Failure(trap && src.Fcb?, code)
      ensures View(src) == old(View(src)) && (old(Clean()) ==> Clean())
    {
      if src.Fcb? {
        o := IoError(code);
      } else {
        o := Died;
      }
    }

    // ---- whole programs ----

    /** One call of either family behaves as the eager machine does on the text
        that family is given. */
    method Perform(call: Call) returns (o: Obs)
      requires Valid() && Legal(call)
      modifies this
      ensures Valid() && (old(Clean()) ==> Clean())
      ensures Meets(o, View(call.src), Eager(old(View(call.src)), trap && call.src.Fcb?, call.op))
    {
      hide Logical, Bared, Clean, CanReturn;
      var src := call.src;
      match call.op {
        case Look => o := Look();
        case AtEof => var b := AtEof(src); o := Flag(b);
        case AtEoln => o := AtEoln(src);
        case Get => o := Get();
        case NextChar => var c := Next(src); o := Char(c);
        case PeekChar => var c := Peek(src); o := Char(c);
        case ReadChar => o := ReadChar(src);
        case ReadLn => ReadLn(src); o := Done;
        case ReadLString(cap) => o := ReadLString(src, cap);
        case ReadInt(bits) => o := ReadInt(src, bits);
        case ReadPtr => o := ReadPtr(src);
      }
    }

    /** The same on the text of another family, when both are given the same. */
    method Serve(call: Call, ghost src: Source) returns (o: Obs)
      requires Valid() && Legal(call) && (Clean() || call.src == src)
      modifies this
      ensures Valid() && (old(Clean()) ==> Clean())
      ensures Meets(o, View(src), Eager(old(View(src)), trap && call.src.Fcb?, call.op))
    {
      hide View, Valid, Eager;
      ghost var clean := Clean();
      if clean {
        CleanView(src);
        CleanView(call.src);
      }
      o := Perform(call);
      if clean {
        CleanView(src);
        CleanView(call.src);
      }
    }

    /** Any program of calls observes what the eager machine gives: on the
        folded text when all are FCB calls, on the bytes as they are when all
        are bare, and on input without carriage returns in any mixture. */
    method Session(calls: seq<Call>, ghost src: Source) returns (obs: seq<Obs>)
      requires Valid() && forall i :: 0 <= i < |calls| ==> Legal(calls[i])
      requires Clean() || forall i :: 0 <= i < |calls| ==> calls[i].src == src
      modifies this
      ensures Valid()
      ensures var e := MixedRun(old(View(src)), trap, calls);
              obs == e.1 && ((obs != [] && obs[|obs| - 1].Died?) || View(src) == e.0)
    {
      hide View, Clean, Valid, Eager, Legal, MixedRun;
      obs := [];
      var k := 0;
      ghost var t := View(src);
      assert calls[0..] == calls;
      while k < |calls|
        invariant 0 <= k <= |calls| && Valid() && (old(Clean()) ==> Clean())
        invariant SameRest(t, trap, calls, View(src), obs, k)
      {
        ghost var before := View(src);
        var o := Serve(calls[k], src);
        RunOn(t, trap, calls, before, obs, k, o, View(src));
        obs := obs + [o];
        if o.Died? { return; }
        k := k + 1;
      }
      RunOver(View(src), trap, calls[k..]);
    }
  }

  /** After k calls with the given observations, what is left decides the rest. */
  ghost predicate SameRest(t: Text, trap: bool, calls: seq<Call>, left: Text, obs: seq<Obs>, k: nat) {
    k <= |calls| &&
    var e, f := MixedRun(t, trap, calls), MixedRun(left, trap, calls[k..]);
    e.0 == f.0 && e.1 == obs + f.1
  }

  lemma RunOver(t: Text, trap: bool, calls: seq<Call>)
    requires calls == []
    ensures MixedRun(t, trap, calls) == (t, [])
  {
  }

  lemma RunOn(t: Text, trap: bool, calls: seq<Call>, before: Text, obs: seq<Obs>, k: nat, o: Obs, after: Text)
    requires k < |calls| && SameRest(t, trap, calls, before, obs, k)
    requires Meets(o, after, Eager(before, trap && calls[k].src.Fcb?, calls[k].op))
    ensures if o.Died? then MixedRun(t, trap, calls).1 == obs + [o] else SameRest(t, trap, calls, after, obs + [o], k + 1)
  {
    hide Eager, MixedRun;
    MixedStep(before, trap, calls[k..]);
    assert calls[k..][1..] == calls[k + 1..];
  }

  /** The stdin reader on any bytes and the file reader on a file that holds
      them give the same number, or both refuse: stdin by ending the program,
      the file by a trapped error where errors are trapped. */
  method SameNumbers(t: Text, bits: IntSize, trap: bool, room: nat) returns (bare: Obs, file: Obs)
    requires room >= 1
    ensures var scan := ScanDecimal(t, bits);
            && bare == (if scan.Scanned? then Number(scan.v) else Died)
            && file == (if scan.Scanned? then Number(scan.v) else if scan.NoInput? then Died else Failure(trap, 14))
  {
    hide ScanDecimal;
    FoldedDecimal(t, bits);
    var a := new Input(t, trap, room);
    bare := a.ReadInt(Bare, bits);
    var b := new Input(t, trap, room);
    file := b.ReadInt(Fcb, bits);
  }

  method SamePointers(t: Text, trap: bool, room: nat) returns (bare: Obs, file: Obs)
    requires room >= 1
    ensures var scan := ScanPtr(t);
            && bare == (if scan.Scanned? then Number(scan.v) else Died)
            && file == (if scan.Scanned? then Number(scan.v) else if scan.NoInput? then Died else Failure(trap, 14))
  {
    hide ScanPtr;
    FoldedPtr(t);
    var a := new Input(t, trap, room);
    bare := a.ReadPtr(Bare);
    var b := new Input(t, trap, room);
    file := b.ReadPtr(Fcb);
  }

  /** The observation and the text left are the expected ones; nothing is left
      to compare once the program has died. */
  predicate Meets(o: Obs, left: Text, e: (Text, Obs)) {
    o == e.1 && (o.Died? || left == e.0)
  }

  /** c was the next character of before, or there was none. */
  predicate Taken(c: int, before: Text, after: Text) {
    if before == [] then c == EOF && after == [] else 0 <= c < 256 && before == [c] + after
  }

  function Returned(c: int, t: Text): Text {
    if 0 <= c < 256 then [c] + t else t
  }

  /** Position n of t is where the stream stood when it gave c; after is what
      it has left. */
  predicate At(t: Text, n: nat, c: int, after: Text) {
    n <= |t| && (if n == |t| then c == EOF && after == [] else c == t[n] && after == t[n + 1..] && Returned(c, after) == t[n..])
  }

  lemma ReturnedHead(c: int, after: Text, t: Text, n: nat)
    requires n <= |t| && Taken(c, t[n..], after)
    ensures At(t, n, c, after)
  {
    if n < |t| { assert t[n..] == [t[n]] + t[n + 1..]; }
  }

  lemma BufferMore(t: Text, n: nat, cap: nat)
    requires n < |t|
    ensures t[..Min(n + 1, cap)] == if n < cap then t[..Min(n, cap)] + [t[n]] else t[..Min(n, cap)]
    ensures t[..n + 1] == t[..n] + [t[n]]
  {
  }

  lemma LineAt(t: Text, n: nat)
    requires n <= |t| && LF !in t[..n] && (n < |t| ==> t[n] == LF)
    ensures Line(t) == t[..n] && AfterLine(t) == if n == |t| then [] else t[n + 1..]
  {
    forall i | 0 <= i < n
      ensures t[i] != LF
    {
      assert t[i] in t[..n];
    }
    LineEnds(t, n);
  }

  /** What READ of an LSTRING makes of a line of n characters. */
  lemma StringRead(t: Text, n: nat, cap: nat, trap: bool)
    requires n <= |t| && LF !in t[..n] && (n < |t| ==> t[n] == LF)
    ensures Min(n, cap) <= n
    ensures Eager(t, trap, FileOp.ReadLString(cap)) ==
            if n == |t| then ([], Died) else (t[n..], Str(t[..Min(n, cap)], Min(n, cap)))
  {
    hide Line;
    LineAt(t, n);
    assert t[..n][..Min(n, cap)] == t[..Min(n, cap)];
  }

  lemma {:induction false} LineEnds(t: Text, n: nat)
    requires n <= |t| && (forall i :: 0 <= i < n ==> t[i] != LF) && (n < |t| ==> t[n] == LF)
    ensures Line(t) == t[..n] && AfterLine(t) == if n == |t| then [] else t[n + 1..]
  {
    if n > 0 {
      LineEnds(t[1..], n - 1);
      assert t[..n] == [t[0]] + t[1..][..n - 1];
      assert n < |t| ==> t[1..][n..] == t[n + 1..];
    }
  }

  /** What Unget of the character at position n leaves to read. */
  lemma AtReturned(t: Text, n: nat, c: int)
    requires n <= |t| && (if n == |t| then c == EOF else c == t[n])
    ensures forall after :: At(t, n, c, after) ==> Returned(c, after) == t[n..]
  {
  }

  predicate AllSpace(t: Text, n: nat) {
    n <= |t| && forall i :: 0 <= i < n ==> IsSpace(t[i])
  }

  lemma {:induction false} SkipsTo(t: Text, n: nat)
    requires AllSpace(t, n) && (n < |t| ==> !IsSpace(t[n]))
    ensures SkipSpace(t) == t[n..]
    decreases n
  {
    if n > 0 {
      SkipsTo(t[1..], n - 1);
      assert t[1..][n - 1..] == t[n..];
    }
  }

  predicate DigitsFrom(t: Text, m: nat, k: nat, base: nat) {
    m <= k <= |t| && forall i :: m <= i < k ==> IsDigitIn(t[i], base)
  }

  function Keep(d: Text, room: nat): Text { if |d| <= room then d else d[..room] }

  lemma StripNothing(t: Text, m: nat)
    requires m <= |t|
    ensures t[m..m] == [] && Strip(t[m..m]) == []
  {
  }

  lemma StripMore(t: Text, m: nat, k: nat, room: nat)
    requires m <= k < |t|
    ensures var d, e := Strip(t[m..k]), Strip(t[m..k + 1]);
            && e == (if d == [] && t[k] == 48 then [] else d + [t[k]])
            && Keep(e, room) == if d == [] && t[k] == 48 then [] else if |d| < room then d + [t[k]] else Keep(d, room)
  {
    assert t[m..k + 1] == t[m..k] + [t[k]];
    StripSnoc(t[m..k], t[k]);
  }

  /** strtoll in base 10: the value, saturated with ERANGE outside 64 bits. */
  function Strtoll(negative: bool, digits: Text): (int, bool) {
    var v := Signed(negative, Value(digits, 10));
    if v > 0x7FFF_FFFF_FFFF_FFFF then (0x7FFF_FFFF_FFFF_FFFF, true)
    else if v < -0x8000_0000_0000_0000 then (-0x8000_0000_0000_0000, true)
    else (v, false)
  }

  lemma RunAt(t: Text, m: nat, k: nat, base: nat)
    requires DigitsFrom(t, m, k, base) && (k < |t| ==> !IsDigitIn(t[k], base))
    ensures Run(t[m..], base) == t[m..k] && t[m..][k - m..] == t[k..]
  {
    assert t[m..] == t[m..k] + t[k..];
    RunExact(t[m..k], t[k..], base);
  }

  lemma NoDigits(t: Text, m: nat, negative: bool, bits: IntSize)
    requires m <= |t| && (m < |t| ==> !IsDigit(t[m]))
    ensures DecimalDigits(t[m..], negative, bits) == Malformed(t[m..])
  {
    RunAt(t, m, m, 10);
  }

  lemma DigitsAre(t: Text, m: nat, k: nat, negative: bool, bits: IntSize)
    requires m < k && DigitsFrom(t, m, k, 10) && (k < |t| ==> !IsDigit(t[k]))
    ensures var v := Signed(negative, Value(t[m..k], 10));
            DecimalDigits(t[m..], negative, bits) == if FitsBits(bits, v) then Scanned(v, t[k..]) else OutOfRange(t[k..])
  {
    RunAt(t, m, k, 10);
  }

  /** The short token is exact: it overflows, or leaves the range, exactly when
      the whole run of digits does, and otherwise has its value. */
  lemma TokenExact(d: Text, negative: bool, room: nat, bits: IntSize)
    requires d != [] && room >= 30 && forall i :: 0 <= i < |d| ==> IsDigit(d[i])
    ensures var s := Strip(d);
            var token := if Keep(s, room) == [] then [48] else Keep(s, room);
            var v := Signed(negative, Value(d, 10));
            var (r, erange) := Strtoll(negative, token);
            && (|s| > room || erange || !FitsBits(bits, r) <==> !FitsBits(bits, v))
            && (FitsBits(bits, v) ==> r == v)
  {
    hide Value, Strip, Power;
    var s := Strip(d);
    StripValue(d, 10);
    if s == [] {
      ZeroToken();
    } else if |s| > room {
      StripDigitsIn(d, 10);
      LongIsLarge(s, 10);
      PowerIsBig(10, |s| - 1);
    }
  }

  lemma ZeroToken()
    ensures Value([48], 10) == 0 && Value([], 10) == 0
  {
    assert [48][..0] == [];
  }

  lemma PtrDigitsAre(t: Text, m: nat, k: nat, base: nat, negative: bool, seen: bool)
    requires DigitsFrom(t, m, k, base) && (k < |t| ==> !IsDigitIn(t[k], base))
    ensures var v := Value(t[m..k], base);
            PtrDigits(t[m..], base, negative, seen) ==
            if m == k && !seen then Malformed(t[k..])
            else if v >= TwoTo64 then OutOfRange(t[k..])
            else Scanned(if negative && v > 0 then TwoTo64 - v else v, t[k..])
  {
    RunAt(t, m, k, base);
  }

  /** The 31-character token is exact in every base. */
  lemma PtrTokenExact(d: Text, base: nat)
    requires (base == 8 || base == 10 || base == 16) && forall i :: 0 <= i < |d| ==> IsDigitIn(d[i], base)
    ensures var s := Strip(d);
            && (|s| > 31 || Value(Keep(s, 31), base) >= TwoTo64 <==> Value(d, base) >= TwoTo64)
            && (|s| <= 31 ==> Value(Keep(s, 31), base) == Value(d, base))
  {
    var s := Strip(d);
    StripValue(d, base);
    if |s| > 31 {
      StripDigitsIn(d, base);
      LongIsLarge(s, base);
      PowerIsBig(base, |s| - 1);
    }
  }

  lemma {:induction false} StripDigitsIn(d: Text, base: nat)
    requires forall i :: 0 <= i < |d| ==> IsDigitIn(d[i], base)
    ensures forall i :: 0 <= i < |Strip(d)| ==> IsDigitIn(Strip(d)[i], base)
  {
    if d != [] && d[0] == 48 { StripDigitsIn(d[1..], base); }
  }

  lemma MixedStep(t: Text, trap: bool, calls: seq<Call>)
    requires calls != []
    ensures var (t1, o) := Eager(t, trap && calls[0].src.Fcb?, calls[0].op);
            var e, f := MixedRun(t, trap, calls), MixedRun(t1, trap, calls[1..]);
            if o.Died? then e.1 == [o] else e.0 == f.0 && e.1 == [o] + f.1
  {
  }
}
