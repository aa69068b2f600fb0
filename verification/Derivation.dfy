/** The expression grammar as a relation between trees and token strings, with
    no parser in it, and the proof that the parser accepts exactly its texts:
    parentheses and leading pluses wherever the grammar allows them, not only
    where a printer would write them. */
module Derivation {
  import opened Operators
  import opened Grammar
  import opened ParserProof

  /** The token that spells each operator. */
  function Lexeme(op: BinOp): Token {
    match op
    case Mul => P(Star) case RDiv => P(Slash) case IDiv => Word("div") case Mod => Word("mod") case And => Word("and")
    case Add => P(Plus) case Sub => P(Minus) case Or => Word("or")
    case Eq => P(PEq) case Ne => P(PNe) case Lt => P(PLt) case Le => P(PLe) case Gt => P(PGt) case Ge => P(PGe)
    case AndThen => Word("and")
  }

  predicate Multiplies(op: BinOp) { op.Mul? || op.RDiv? || op.IDiv? || op.Mod? || op.And? }
  predicate Adds(op: BinOp) { op.Add? || op.Sub? || op.Or? }
  predicate Relates(op: BinOp) { op.Eq? || op.Ne? || op.Lt? || op.Le? || op.Gt? || op.Ge? }

  /** A name an expression may use. */
  predicate Usable(x: string) { Ident(x) && x != "ads" }

  /** The words that are never names. */
  predicate NeverName(w: string) {
    || w in {"and", "array", "begin", "case", "const", "div", "do", "downto", "else", "end", "for"}
    || w in {"function", "goto", "if", "in", "label", "mod", "not", "of", "or", "packed", "procedure"}
    || w in {"program", "record", "repeat", "set", "then", "to", "type", "until", "var", "while", "with"}
    || w in {"interface", "implementation", "unit", "uses", "otherwise", "value", "module", "xor"}
  }

  lemma NamesAre(w: string)
    ensures Ident(w) <==> !NeverName(w)
  {
  }

  // ---- the grammar: e is spelled by ts up to k ----

  /** A name, a call or a parenthesised expression, and selectors after it. The
      name adr is one unless a word follows. */
  ghost predicate IsPrimary(e: Expr, ts: Tokens, k: Tokens)
    decreases Len(ts), e, 0
  {
    || (At(ts, LParen) && IsExpr(e, ts.tail, T(P(RParen), k)))
    || match e
       case EName(x) => Usable(x) && ts == T(Word(x), k) && !At(k, LParen) && (x == "adr" ==> !WordNext(k))
       case ECall(f, args) =>
         Usable(f) && ts.T? && ts.head == Word(f) && At(ts.tail, LParen) &&
         (if args.NoArgs? then ts.tail.tail == T(P(RParen), k)
          else Len(ts.tail.tail) < Len(ts) && IsArgs(args, ts.tail.tail, k))
       case EIndex(a, i) =>
         exists m :: Len(m) < Len(ts) && IsPrimary(a, ts, T(P(LBrack), m)) && IsExpr(i, m, T(P(RBrack), k))
       case EField(a, f) => Ident(f) && IsPrimary(a, ts, T(P(Dot), T(Word(f), k)))
       case EDeref(a) => IsPrimary(a, ts, T(P(Caret), k))
       case _ => false
  }

  /** Arguments and the closing parenthesis. */
  ghost predicate IsArgs(a: Args, ts: Tokens, k: Tokens)
    decreases Len(ts), a, 5
  {
    a.Arg? &&
    if a.tail.NoArgs? then IsExpr(a.head, ts, T(P(RParen), k))
    else exists m :: Len(m) < Len(ts) && IsExpr(a.head, ts, T(P(Comma), m)) && IsArgs(a.tail, m, k)
  }

  ghost predicate IsFactor(e: Expr, ts: Tokens, k: Tokens)
    decreases Len(ts), e, 1
  {
    || IsPrimary(e, ts, k)
    || match e
       case EInt(v) => ts == T(TInt(v), k)
       case EReal(x) => ts == T(TReal(x), k)
       case EStr(s) => ts == T(TStr(s), k)
       case EChar(c) => ts == T(TChar(c), k)
       case EUn(op, a) => op.Not? && AtWord(ts, "not") && IsFactor(a, ts.tail, k)
       case EAdr(x) => Ident(x) && ts == T(Word("adr"), T(Word(x), k)) && !At(k, Dot) && !At(k, LBrack) && !At(k, Caret)
       case _ => false
  }

  ghost predicate IsTerm(e: Expr, ts: Tokens, k: Tokens)
    decreases Len(ts), e, 2
  {
    || IsFactor(e, ts, k)
    || (e.EBin? && Multiplies(e.op) &&
        exists m :: Len(m) < Len(ts) && IsTerm(e.l, ts, T(Lexeme(e.op), m)) && IsFactor(e.r, m, k))
  }

  /** A sum; a leading plus means nothing, a leading minus negates the first
      term. */
  ghost predicate IsSimple(e: Expr, ts: Tokens, k: Tokens)
    decreases Len(ts), e, 3
  {
    || IsTerm(e, ts, k)
    || (At(ts, Plus) && IsTerm(e, ts.tail, k))
    || (At(ts, Minus) && e.EUn? && e.uop.Neg? && IsTerm(e.a, ts.tail, k))
    || (e.EBin? && Adds(e.op) &&
        exists m :: Len(m) < Len(ts) && IsSimple(e.l, ts, T(Lexeme(e.op), m)) && IsTerm(e.r, m, k))
  }

  ghost predicate IsExpr(e: Expr, ts: Tokens, k: Tokens)
    decreases Len(ts), e, 4
  {
    || IsSimple(e, ts, k)
    || (e.EBin? && Relates(e.op) &&
        exists m :: Len(m) < Len(ts) && IsSimple(e.l, ts, T(Lexeme(e.op), m)) && IsSimple(e.r, m, k))
  }

  ghost predicate IsCondition(e: Expr, ts: Tokens, k: Tokens)
    decreases e
  {
    || IsExpr(e, ts, k)
    || (e.EBin? && e.op.AndThen? &&
        exists m :: IsCondition(e.l, ts, T(Word("and"), T(Word("then"), m))) && IsExpr(e.r, m, k))
  }

  // ---- the parser accepts only such texts ----

  lemma {:induction false} SelectorsSound(e: Expr, start: Tokens, ts: Tokens)
    requires Buildable(e) && Len(ts) < Len(start) && IsPrimary(e, start, ts) && Selectors(e, ts).Got?
    ensures IsPrimary(Selectors(e, ts).e, start, Selectors(e, ts).rest)
    decreases Len(ts), 0
  {
    hide ParseExpr, IsPrimary;
    if At(ts, LBrack) {
      var x := ParseExpr(ts.tail);
      ExprSound(ts.tail);
      IndexSound(e, x.e, start, ts.tail, x.rest);
      SelectorsSound(EIndex(e, x.e), start, x.rest.tail);
    } else if At(ts, Dot) {
      FieldSound(e, start, ts);
      SelectorsSound(EField(e, ts.tail.head.text), start, ts.tail.tail);
    } else if At(ts, Caret) {
      FieldSound(e, start, ts);
      SelectorsSound(EDeref(e), start, ts.tail);
    }
  }

  lemma IndexSound(a: Expr, i: Expr, start: Tokens, m: Tokens, rest: Tokens)
    requires IsPrimary(a, start, T(P(LBrack), m)) && Len(m) < Len(start) && At(rest, RBrack) && IsExpr(i, m, rest)
    ensures IsPrimary(EIndex(a, i), start, rest.tail)
  {
    hide IsExpr;
    assert rest == T(P(RBrack), rest.tail);
  }

  lemma FieldSound(a: Expr, start: Tokens, ts: Tokens)
    requires IsPrimary(a, start, ts)
    ensures At(ts, Dot) && AtIdent(ts.tail) ==>
              IsPrimary(EField(a, ts.tail.head.text), start, ts.tail.tail) && Len(ts.tail.tail) < Len(ts.tail)
    ensures At(ts, Caret) ==> IsPrimary(EDeref(a), start, ts.tail)
  {
    hide IsExpr;
    assert At(ts, Dot) && AtIdent(ts.tail) ==> ts == T(P(Dot), T(Word(ts.tail.head.text), ts.tail.tail));
    assert At(ts, Caret) ==> ts == T(P(Caret), ts.tail);
  }

  lemma {:induction false} ArgsSound(ts: Tokens)
    ensures var r := ParseArgs(ts); r.GotArgs? ==> IsArgs(r.args, ts, r.rest)
    decreases Len(ts), 5
  {
    hide ParseExpr, IsExpr;
    if ParseArgs(ts).GotArgs? {
      var x := ParseExpr(ts);
      ExprSound(ts);
      if At(x.rest, Comma) {
        ArgsSound(x.rest.tail);
        assert x.rest == T(P(Comma), x.rest.tail);
      } else {
        assert x.rest == T(P(RParen), x.rest.tail);
      }
    }
  }

  lemma {:induction false} NameSound(w: string, ts: Tokens)
    requires Usable(w) && (w == "adr" ==> !WordNext(ts))
    ensures var r := ParseName(w, ts); r.Got? ==> IsPrimary(r.e, T(Word(w), ts), r.rest)
    decreases Len(ts), 6
  {
    hide ParseExpr, Selectors, ParseArgs, IsExpr;
    var start := T(Word(w), ts);
    if ParseName(w, ts).Got? {
      if !At(ts, LParen) {
        assert IsPrimary(EName(w), start, ts);
        SelectorsSound(EName(w), start, ts);
      } else if At(ts.tail, RParen) {
        NoArgsSound(w, ts);
        SelectorsSound(ECall(w, NoArgs), start, ts.tail.tail);
      } else {
        var a := ParseArgs(ts.tail);
        ArgsSound(ts.tail);
        CallSound(w, ts, a.args, a.rest);
        SelectorsSound(ECall(w, a.args), start, a.rest);
      }
    }
  }

  lemma NoArgsSound(w: string, ts: Tokens)
    requires Usable(w) && At(ts, LParen) && At(ts.tail, RParen)
    ensures IsPrimary(ECall(w, NoArgs), T(Word(w), ts), ts.tail.tail) && Len(ts.tail.tail) < Len(ts)
  {
    assert Len(ts.tail.tail) < Len(ts.tail);
    assert ts.tail == T(P(RParen), ts.tail.tail);
  }

  lemma CallSound(w: string, ts: Tokens, args: Args, k: Tokens)
    requires Usable(w) && At(ts, LParen) && args.Arg? && IsArgs(args, ts.tail, k)
    ensures IsPrimary(ECall(w, args), T(Word(w), ts), k)
  {
    hide IsArgs, IsExpr;
    assert Len(ts.tail) < Len(T(Word(w), ts));
  }

  lemma {:induction false} FactorSound(ts: Tokens)
    ensures var r := Factor(ts); r.Got? ==> IsFactor(r.e, ts, r.rest)
    decreases Len(ts), 1
  {
    hide ParseExpr, Selectors, ParseName, IsExpr, IsPrimary;
    var r := Factor(ts);
    if r.Got? {
      match ts.head
      case P(_) => ParenSound(ts);
      case Word(w) =>
        if w == "not" {
          FactorSound(ts.tail);
        } else if !(w == "adr" && WordNext(ts.tail)) {
          NameSound(w, ts.tail);
        }
      case _ =>
    }
  }

  lemma {:induction false} ParenSound(ts: Tokens)
    requires Factor(ts).Got? && ts.head.P?
    ensures IsPrimary(Factor(ts).e, ts, Factor(ts).rest)
    decreases Len(ts), 0
  {
    hide ParseExpr, Selectors, IsExpr;
    var x := ParseExpr(ts.tail);
    ExprSound(ts.tail);
    assert x.rest == T(P(RParen), x.rest.tail);
    assert IsPrimary(x.e, ts, x.rest.tail);
    SelectorsSound(x.e, ts, x.rest.tail);
  }

  lemma {:induction false} TermRestSound(e: Expr, start: Tokens, ts: Tokens)
    requires Buildable(e) && Len(ts) < Len(start) && IsTerm(e, start, ts) && TermRest(e, ts).Got?
    ensures IsTerm(TermRest(e, ts).e, start, TermRest(e, ts).rest)
    decreases Len(ts), 0
  {
    hide Factor, IsFactor;
    var op := MulOp(ts);
    if !op.AndThen? {
      var x := Factor(ts.tail);
      FactorSound(ts.tail);
      assert ts == T(Lexeme(op), ts.tail);
      assert IsTerm(EBin(op, e, x.e), start, x.rest);
      TermRestSound(EBin(op, e, x.e), start, x.rest);
    }
  }

  lemma {:induction false} TermSound(ts: Tokens)
    ensures var r := Term(ts); r.Got? ==> IsTerm(r.e, ts, r.rest)
    decreases Len(ts), 2
  {
    hide Factor, TermRest, IsFactor;
    if Term(ts).Got? {
      var x := Factor(ts);
      FactorSound(ts);
      TermRestSound(x.e, ts, x.rest);
    }
  }

  lemma {:induction false} SimpleRestSound(e: Expr, start: Tokens, ts: Tokens)
    requires Buildable(e) && Len(ts) < Len(start) && IsSimple(e, start, ts) && SimpleRest(e, ts).Got?
    ensures IsSimple(SimpleRest(e, ts).e, start, SimpleRest(e, ts).rest)
    decreases Len(ts), 0
  {
    hide Term, IsTerm;
    var op := AddOp(ts);
    if !op.AndThen? {
      var x := Term(ts.tail);
      TermSound(ts.tail);
      assert ts == T(Lexeme(op), ts.tail);
      assert IsSimple(EBin(op, e, x.e), start, x.rest);
      SimpleRestSound(EBin(op, e, x.e), start, x.rest);
    }
  }

  lemma {:induction false} SimpleSound(ts: Tokens)
    ensures var r := Simple(ts); r.Got? ==> IsSimple(r.e, ts, r.rest)
    decreases Len(ts), 3
  {
    hide Term, SimpleRest, IsTerm;
    if Simple(ts).Got? {
      var after := if At(ts, Minus) || At(ts, Plus) then ts.tail else ts;
      var x := Term(after);
      TermSound(after);
      var e := if At(ts, Minus) then EUn(Neg, x.e) else x.e;
      assert IsSimple(e, ts, x.rest);
      SimpleRestSound(e, ts, x.rest);
    }
  }

  /** Whatever the parser accepts is a text of the tree it returns. */
  lemma {:induction false} ExprSound(ts: Tokens)
    ensures var r := ParseExpr(ts); r.Got? ==> IsExpr(r.e, ts, r.rest)
    decreases Len(ts), 4
  {
    hide Simple, IsSimple;
    var x := Simple(ts);
    if ParseExpr(ts).Got? {
      SimpleSound(ts);
      var op := RelOp(x.rest);
      if !op.AndThen? {
        SimpleSound(x.rest.tail);
        assert x.rest == T(Lexeme(op), x.rest.tail);
      }
    }
  }

  lemma {:induction false} BoolRestSound(e: Expr, start: Tokens, ts: Tokens)
    requires Condition(e) && IsCondition(e, start, ts) && BoolRest(e, ts).Got?
    ensures IsCondition(BoolRest(e, ts).e, start, BoolRest(e, ts).rest)
    decreases Len(ts)
  {
    hide ParseExpr, IsExpr;
    if AtWord(ts, "and") && AtWord(ts.tail, "then") {
      assert Len(ts.tail.tail) < Len(ts.tail);
      var x := ParseExpr(ts.tail.tail);
      ExprSound(ts.tail.tail);
      assert ts == T(Word("and"), T(Word("then"), ts.tail.tail));
      assert IsCondition(EBin(AndThen, e, x.e), start, x.rest);
      BoolRestSound(EBin(AndThen, e, x.e), start, x.rest);
    }
  }

  lemma ConditionSound(ts: Tokens)
    ensures var r := BoolExpr(ts); r.Got? ==> IsCondition(r.e, ts, r.rest)
  {
    hide ParseExpr, BoolRest, IsExpr;
    if BoolExpr(ts).Got? {
      ExprSound(ts);
      BoolRestSound(ParseExpr(ts).e, ts, ParseExpr(ts).rest);
    }
  }

  // ---- and all of them ----

  /** A factor, a product or a primary starts with no sign and no word that
      could belong to an operator before it. */
  lemma {:induction false} Starts(e: Expr, ts: Tokens, k: Tokens)
    requires IsTerm(e, ts, k)
    ensures Opens(ts) && Unsigned(ts)
    decreases e, 2
  {
    hide IsExpr, IsArgs;
    Reserved();
    if IsFactor(e, ts, k) {
      if IsPrimary(e, ts, k) { PrimaryStarts(e, ts, k); }
    } else {
      var m :| Len(m) < Len(ts) && IsTerm(e.l, ts, T(Lexeme(e.op), m)) && IsFactor(e.r, m, k);
      Starts(e.l, ts, T(Lexeme(e.op), m));
    }
  }

  lemma {:induction false} PrimaryStarts(e: Expr, ts: Tokens, k: Tokens)
    requires IsPrimary(e, ts, k)
    ensures Opens(ts) && Unsigned(ts)
    decreases e, 1
  {
    hide IsExpr, IsArgs;
    Reserved();
    if !At(ts, LParen) {
      match e
      case EIndex(a, i) =>
        var m :| Len(m) < Len(ts) && IsPrimary(a, ts, T(P(LBrack), m)) && IsExpr(i, m, T(P(RBrack), k));
        PrimaryStarts(a, ts, T(P(LBrack), m));
      case EField(a, f) => PrimaryStarts(a, ts, T(P(Dot), T(Word(f), k)));
      case EDeref(a) => PrimaryStarts(a, ts, T(P(Caret), k));
      case _ =>
    }
  }

  lemma {:induction false} PrimaryComplete(e: Expr, ts: Tokens, k: Tokens)
    requires Buildable(e) && IsPrimary(e, ts, k)
    ensures Factor(ts) == Selectors(e, k)
    decreases Len(ts), e, 0
  {
    hide ParseExpr, IsExpr, IsArgs, Selectors;
    if At(ts, LParen) && IsExpr(e, ts.tail, T(P(RParen), k)) {
      ExprComplete(e, ts.tail, T(P(RParen), k));
    } else {
      match e
      case EName(x) => NameComplete(x, k);
      case ECall(f, args) => CallComplete(f, args, ts, k);
      case EIndex(a, i) => IndexComplete(a, i, ts, k);
      case EField(a, f) =>
        PrimaryComplete(a, ts, T(P(Dot), T(Word(f), k)));
        SelectorStep(a, f, k);
      case EDeref(a) =>
        PrimaryComplete(a, ts, T(P(Caret), k));
        SelectorStep(a, "", k);
    }
  }

  lemma SelectorStep(a: Expr, f: string, k: Tokens)
    requires Buildable(a)
    ensures Ident(f) ==> Selectors(a, T(P(Dot), T(Word(f), k))) == Selectors(EField(a, f), k)
    ensures Selectors(a, T(P(Caret), k)) == Selectors(EDeref(a), k)
  {
  }

  lemma NameComplete(x: string, k: Tokens)
    requires Usable(x) && !At(k, LParen) && (x == "adr" ==> !WordNext(k))
    ensures Factor(T(Word(x), k)) == Selectors(EName(x), k)
  {
    Reserved();
    hide Selectors, ParseExpr;
    assert ParseName(x, k) == Selectors(EName(x), k);
  }

  lemma {:induction false} IndexComplete(a: Expr, i: Expr, ts: Tokens, k: Tokens)
    requires Buildable(a) && Buildable(i)
    requires exists m :: Len(m) < Len(ts) && IsPrimary(a, ts, T(P(LBrack), m)) && IsExpr(i, m, T(P(RBrack), k))
    ensures Factor(ts) == Selectors(EIndex(a, i), k)
    decreases Len(ts), a, 1
  {
    hide ParseExpr, IsExpr, IsPrimary, Factor;
    var m :| Len(m) < Len(ts) && IsPrimary(a, ts, T(P(LBrack), m)) && IsExpr(i, m, T(P(RBrack), k));
    PrimaryComplete(a, ts, T(P(LBrack), m));
    ExprComplete(i, m, T(P(RBrack), k));
  }

  lemma {:induction false} CallComplete(f: string, args: Args, ts: Tokens, k: Tokens)
    requires Buildable(ECall(f, args)) && Usable(f) && ts.T? && ts.head == Word(f) && At(ts.tail, LParen)
    requires if args.NoArgs? then ts.tail.tail == T(P(RParen), k) else Len(ts.tail.tail) < Len(ts) && IsArgs(args, ts.tail.tail, k)
    ensures Factor(ts) == Selectors(ECall(f, args), k)
    decreases Len(ts), args, 6
  {
    hide ParseExpr, IsArgs, Selectors, Ident;
    Reserved();
    assert Factor(ts) == ParseName(f, ts.tail);
    if args.Arg? {
      ArgsStart(args, ts.tail.tail, k);
      ArgsComplete(args, ts.tail.tail, k);
    }
  }

  lemma ArgsStart(args: Args, ts: Tokens, k: Tokens)
    requires IsArgs(args, ts, k)
    ensures !At(ts, RParen)
  {
    hide IsSimple;
    if args.tail.NoArgs? {
      ExprStarts(args.head, ts, T(P(RParen), k));
    } else {
      var m :| Len(m) < Len(ts) && IsExpr(args.head, ts, T(P(Comma), m)) && IsArgs(args.tail, m, k);
      ExprStarts(args.head, ts, T(P(Comma), m));
    }
  }

  lemma {:induction false} SimpleStarts(e: Expr, ts: Tokens, k: Tokens)
    requires IsSimple(e, ts, k)
    ensures ts.T? && !At(ts, RParen)
    decreases e
  {
    hide IsTerm;
    if IsTerm(e, ts, k) {
      Starts(e, ts, k);
    } else if !At(ts, Plus) && !At(ts, Minus) {
      var m :| Len(m) < Len(ts) && IsSimple(e.l, ts, T(Lexeme(e.op), m)) && IsTerm(e.r, m, k);
      SimpleStarts(e.l, ts, T(Lexeme(e.op), m));
    }
  }

  lemma ExprStarts(e: Expr, ts: Tokens, k: Tokens)
    requires IsExpr(e, ts, k)
    ensures !At(ts, RParen)
  {
    hide IsSimple;
    if IsSimple(e, ts, k) {
      SimpleStarts(e, ts, k);
    } else {
      var m :| Len(m) < Len(ts) && IsSimple(e.l, ts, T(Lexeme(e.op), m)) && IsSimple(e.r, m, k);
      SimpleStarts(e.l, ts, T(Lexeme(e.op), m));
    }
  }

  lemma {:induction false} ArgsComplete(args: Args, ts: Tokens, k: Tokens)
    requires BuildableArgs(args) && IsArgs(args, ts, k)
    ensures ParseArgs(ts) == GotArgs(args, k)
    decreases Len(ts), args, 5
  {
    hide ParseExpr, IsExpr;
    if args.tail.NoArgs? {
      ExprComplete(args.head, ts, T(P(RParen), k));
    } else {
      var m :| Len(m) < Len(ts) && IsExpr(args.head, ts, T(P(Comma), m)) && IsArgs(args.tail, m, k);
      ExprComplete(args.head, ts, T(P(Comma), m));
      ArgsComplete(args.tail, m, k);
    }
  }

  lemma {:induction false} FactorComplete(e: Expr, ts: Tokens, k: Tokens)
    requires Buildable(e) && IsFactor(e, ts, k) && EndsFactor(k)
    ensures Factor(ts) == Got(e, k)
    decreases Len(ts), e, 1
  {
    hide IsPrimary, ParseExpr;
    Reserved();
    if IsPrimary(e, ts, k) {
      PrimaryComplete(e, ts, k);
    } else if e.EUn? {
      FactorComplete(e.a, ts.tail, k);
    }
  }

  lemma {:induction false} TermComplete(e: Expr, ts: Tokens, k: Tokens)
    requires Buildable(e) && IsTerm(e, ts, k) && EndsFactor(k)
    ensures Term(ts) == TermRest(e, k)
    decreases Len(ts), e, 2
  {
    hide Factor, IsFactor;
    if IsFactor(e, ts, k) {
      FactorComplete(e, ts, k);
    } else {
      var m :| Len(m) < Len(ts) && IsTerm(e.l, ts, T(Lexeme(e.op), m)) && IsFactor(e.r, m, k);
      FactorStarts(e.r, m, k);
      MulLexeme(e.op, m);
      TermComplete(e.l, ts, T(Lexeme(e.op), m));
      FactorComplete(e.r, m, k);
    }
  }

  lemma FactorStarts(e: Expr, ts: Tokens, k: Tokens)
    requires IsFactor(e, ts, k)
    ensures Opens(ts) && Unsigned(ts)
  {
    hide IsFactor;
    Starts(e, ts, k);
  }

  lemma MulLexeme(op: BinOp, m: Tokens)
    requires Multiplies(op) && !AtWord(m, "then")
    ensures MulOp(T(Lexeme(op), m)) == op && EndsFactor(T(Lexeme(op), m))
  {
  }

  lemma AddLexeme(op: BinOp, m: Tokens)
    requires Adds(op)
    ensures AddOp(T(Lexeme(op), m)) == op && EndsTerm(T(Lexeme(op), m))
  {
  }

  lemma RelLexeme(op: BinOp, m: Tokens)
    requires Relates(op)
    ensures RelOp(T(Lexeme(op), m)) == op && EndsSimple(T(Lexeme(op), m))
  {
  }

  lemma {:induction false} SimpleComplete(e: Expr, ts: Tokens, k: Tokens)
    requires Buildable(e) && IsSimple(e, ts, k) && EndsTerm(k)
    ensures Simple(ts) == SimpleRest(e, k)
    decreases Len(ts), e, 3
  {
    hide Term, TermRest, SimpleRest, IsTerm;
    if IsTerm(e, ts, k) {
      Starts(e, ts, k);
      TermComplete(e, ts, k);
      TermRestEnds(e, k);
    } else if At(ts, Plus) && IsTerm(e, ts.tail, k) {
      TermComplete(e, ts.tail, k);
      TermRestEnds(e, k);
    } else if At(ts, Minus) && e.EUn? && e.uop.Neg? && IsTerm(e.a, ts.tail, k) {
      TermComplete(e.a, ts.tail, k);
      TermRestEnds(e.a, k);
    } else {
      SumComplete(e, ts, k);
    }
  }

  lemma {:induction false} SumComplete(e: Expr, ts: Tokens, k: Tokens)
    requires Buildable(e) && EndsTerm(k) && e.EBin? && Adds(e.op)
    requires exists m :: Len(m) < Len(ts) && IsSimple(e.l, ts, T(Lexeme(e.op), m)) && IsTerm(e.r, m, k)
    ensures Simple(ts) == SimpleRest(e, k)
    decreases Len(ts), e, 2
  {
    hide Term, TermRest, IsTerm, Simple, IsSimple;
    var m :| Len(m) < Len(ts) && IsSimple(e.l, ts, T(Lexeme(e.op), m)) && IsTerm(e.r, m, k);
    Starts(e.r, m, k);
    AddLexeme(e.op, m);
    SimpleComplete(e.l, ts, T(Lexeme(e.op), m));
    TermComplete(e.r, m, k);
    TermRestEnds(e.r, k);
  }

  /** Every text of a tree, before a token that cannot continue it, is parsed to
      that tree. */
  lemma {:induction false} ExprComplete(e: Expr, ts: Tokens, k: Tokens)
    requires Buildable(e) && IsExpr(e, ts, k) && EndsExpr(k)
    ensures ParseExpr(ts) == Got(e, k)
    decreases Len(ts), e, 4
  {
    hide Simple, SimpleRest, IsSimple;
    if IsSimple(e, ts, k) {
      SimpleComplete(e, ts, k);
      SimpleRestEnds(e, k);
    } else {
      var m :| Len(m) < Len(ts) && IsSimple(e.l, ts, T(Lexeme(e.op), m)) && IsSimple(e.r, m, k);
      RelLexeme(e.op, m);
      SimpleComplete(e.l, ts, T(Lexeme(e.op), m));
      SimpleRestEnds(e.l, T(Lexeme(e.op), m));
      SimpleComplete(e.r, m, k);
      SimpleRestEnds(e.r, k);
    }
  }

  lemma {:induction false} ConditionComplete(e: Expr, ts: Tokens, k: Tokens)
    requires Condition(e) && IsCondition(e, ts, k) && EndsExpr(k)
    ensures BoolExpr(ts) == BoolRest(e, k)
  {
    hide ParseExpr, IsExpr;
    if e.EBin? && e.op.AndThen? {
      NotPlain(e, ts, k);
      var m :| IsCondition(e.l, ts, T(Word("and"), T(Word("then"), m))) && IsExpr(e.r, m, k);
      ConditionComplete(e.l, ts, T(Word("and"), T(Word("then"), m)));
      ExprComplete(e.r, m, k);
    } else {
      ExprComplete(e, ts, k);
    }
  }

  /** AND THEN belongs to no expression. */
  lemma {:induction false} NotPlain(e: Expr, ts: Tokens, k: Tokens)
    requires e.EBin? && e.op.AndThen?
    ensures !IsExpr(e, ts, k)
    decreases Len(ts), 1
  {
    hide IsPrimary;
    NotPrimary(e, ts, k);
    assert !IsFactor(e, ts, k);
    assert !IsTerm(e, ts, k);
    if At(ts, Plus) {
      NotPrimary(e, ts.tail, k);
      assert !IsFactor(e, ts.tail, k);
      assert !IsTerm(e, ts.tail, k);
    }
    assert !IsSimple(e, ts, k);
  }

  lemma {:induction false} NotPrimary(e: Expr, ts: Tokens, k: Tokens)
    requires e.EBin? && e.op.AndThen?
    ensures !IsPrimary(e, ts, k)
    decreases Len(ts), 0
  {
    hide IsExpr;
    if At(ts, LParen) { NotPlain(e, ts.tail, T(P(RParen), k)); }
  }

  /** Main result: the parser reads e from ts and stops at k if and only if ts is
      a text of e up to k, for every token k that cannot continue it. */
  lemma ParserExact(ts: Tokens, e: Expr, k: Tokens)
    requires EndsExpr(k)
    ensures ParseExpr(ts) == Got(e, k) <==> Buildable(e) && IsExpr(e, ts, k)
  {
    hide ParseExpr, IsExpr;
    ExprSound(ts);
    if Buildable(e) && IsExpr(e, ts, k) { ExprComplete(e, ts, k); }
  }

  lemma ConditionExact(ts: Tokens, e: Expr, k: Tokens)
    requires EndsCondition(k)
    ensures BoolExpr(ts) == Got(e, k) <==> Condition(e) && IsCondition(e, ts, k)
  {
    hide ParseExpr, IsCondition, BoolExpr;
    ConditionSound(ts);
    if Condition(e) && IsCondition(e, ts, k) { ConditionComplete(e, ts, k); }
  }

  /** A leading plus changes nothing. */
  lemma PlusIgnored(e: Expr, k: Tokens)
    requires Buildable(e) && EndsExpr(k) && Unsigned(Print(Minimal, e, 1, k))
    ensures ParseExpr(T(P(Plus), Print(Minimal, e, 1, k))) == Got(e, k)
  {
    hide ParseExpr, Simple, Term, SimpleRest;
    var ts := Print(Minimal, e, 1, k);
    ExprBack(e, k);
    PlusSame(ts);
  }

  lemma PlusSame(ts: Tokens)
    requires Unsigned(ts)
    ensures ParseExpr(T(P(Plus), ts)) == ParseExpr(ts)
  {
    hide Term, SimpleRest;
    assert Simple(T(P(Plus), ts)) == Simple(ts);
  }
}
