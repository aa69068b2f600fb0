/** Parsing undoes printing. */
module ParserProof {
  import opened Operators
  import opened Grammar

  // ---- tokens that cannot continue an expression ----

  /** k does not extend a factor just read. */
  predicate EndsFactor(k: Tokens) {
    !At(k, LBrack) && !At(k, Dot) && !At(k, Caret) && !At(k, LParen)
  }

  predicate EndsTerm(k: Tokens) { EndsFactor(k) && MulOp(k).AndThen? }

  predicate EndsSimple(k: Tokens) { EndsTerm(k) && AddOp(k).AndThen? && !AtWord(k, "xor") }

  /** Any token that cannot continue an expression, AND THEN included. */
  predicate EndsExpr(k: Tokens) { EndsSimple(k) && RelOp(k).AndThen? && !AtWord(k, "in") }

  predicate EndsCondition(k: Tokens) {
    EndsExpr(k) && !(AtWord(k, "and") && AtWord(k.tail, "then"))
  }

  lemma Reserved()
    ensures !Ident("and") && !Ident("div") && !Ident("mod") && !Ident("or") && !Ident("not") && !Ident("then") && !Ident("else")
    ensures Ident("adr") && "adr" != "not" && "adr" != "ads"
  {
    assert "adr"[0] != "not"[0] && "adr"[2] != "ads"[2];
  }

  /** The first token of a printed tree is never THEN, ELSE, a sign it does not
      own, or a closing parenthesis. */
  predicate Opens(t: Tokens) {
    t.T? && !AtWord(t, "then") && !AtWord(t, "else") && !At(t, RParen)
  }

  predicate Unsigned(t: Tokens) { !At(t, Minus) && !At(t, Plus) }

  lemma {:induction false} BareOpens(e: Expr, k: Tokens)
    requires Buildable(e)
    ensures Opens(Bare(Minimal, e, k)) && (Level(e) >= 3 ==> Unsigned(Bare(Minimal, e, k)))
    decreases e, 0
  {
    Reserved();
    match e
    case EIndex(a, _) => if Designator(a) { BareOpens(a, T(P(LBrack), Print(Minimal, e.i, 1, T(P(RBrack), k)))); }
    case EField(a, f) => if Designator(a) { BareOpens(a, T(P(Dot), T(Word(f), k))); }
    case EDeref(a) => if Designator(a) { BareOpens(a, T(P(Caret), k)); }
    case EBin(op, l, r) =>
      var n := Level(e);
      PrintOpens(l, if n == 1 then 2 else n, T(OpToken(op), Print(Minimal, r, n + 1, k)));
    case _ =>
  }

  lemma {:induction false} PrintOpens(e: Expr, n: nat, k: Tokens)
    requires Buildable(e)
    ensures Opens(Print(Minimal, e, n, k)) && (n >= 3 ==> Unsigned(Print(Minimal, e, n, k)))
    decreases e, 1
  {
    if Level(e) >= n { BareOpens(e, k); }
  }

  // ---- the round trip, level by level ----

  /** A factor is read back exactly. */
  lemma {:induction false} FactorBack(e: Expr, k: Tokens)
    requires Buildable(e) && EndsFactor(k)
    ensures Factor(Print(Minimal, e, 4, k)) == Got(e, k)
    decreases e, if Level(e) == 4 then 2 else 20
  {
    hide ParseExpr, Bare, Ident;
    if Level(e) < 4 {
      ParenBack(e, k);
    } else {
      AtomBack(e, k);
    }
  }

  lemma {:induction false} ParenBack(e: Expr, k: Tokens)
    requires Buildable(e)
    ensures Factor(T(P(LParen), Bare(Minimal, e, T(P(RParen), k)))) == Selectors(e, k)
    decreases e, 6
  {
    hide Bare, ParseExpr, Selectors;
    var rest := T(P(RParen), k);
    BareBack(e, rest);
    assert ParseExpr(Bare(Minimal, e, rest)) == Got(e, rest);
  }

  lemma {:induction false} AtomBack(e: Expr, k: Tokens)
    requires Buildable(e) && EndsFactor(k) && Level(e) == 4
    ensures Factor(Bare(Minimal, e, k)) == Got(e, k)
    decreases e, 1
  {
    Reserved();
    if Designator(e) {
      DesignatorBack(e, k);
    } else if e.EUn? {
      FactorBack(e.a, k);
    }
  }

  /** A designator leaves the selectors after it to the same loop. */
  lemma {:induction false} DesignatorBack(e: Expr, k: Tokens)
    requires Buildable(e) && Designator(e) && !At(k, LParen)
    ensures Factor(Bare(Minimal, e, k)) == Selectors(e, k)
    decreases e, 0, 1
  {
    hide ParseExpr;
    match e
    case EName(x) => NameBack(x, k);
    case ECall(f, args) => CallBack(f, args, k);
    case EIndex(a, i) => IndexBack(a, i, k);
    case EField(a, f) => BaseBack(a, T(P(Dot), T(Word(f), k)));
    case EDeref(a) => BaseBack(a, T(P(Caret), k));
  }

  lemma {:induction false} IndexBack(a: Expr, i: Expr, k: Tokens)
    requires Buildable(a) && Buildable(i)
    ensures Factor(Bare(Minimal, EIndex(a, i), k)) == Selectors(EIndex(a, i), k)
    decreases EIndex(a, i), 0, 0
  {
    hide Factor, Bare, ParseExpr, Selectors;
    var rest := T(P(RBrack), k);
    BaseBack(a, T(P(LBrack), Print(Minimal, i, 1, rest)));
    ExprBack(i, rest);
    IndexStep(a, i, k);
    BareIndex(a, i, k);
  }

  lemma BareIndex(a: Expr, i: Expr, k: Tokens)
    ensures Bare(Minimal, EIndex(a, i), k) == Base(Minimal, a, T(P(LBrack), Print(Minimal, i, 1, T(P(RBrack), k))))
  {
  }

  lemma IndexStep(a: Expr, i: Expr, k: Tokens)
    requires Buildable(a) && Buildable(i)
    requires ParseExpr(Print(Minimal, i, 1, T(P(RBrack), k))) == Got(i, T(P(RBrack), k))
    ensures Selectors(a, T(P(LBrack), Print(Minimal, i, 1, T(P(RBrack), k)))) == Selectors(EIndex(a, i), k)
  {
    hide Print, ParseExpr;
  }

  lemma NameBack(x: string, k: Tokens)
    requires Ident(x) && x != "ads" && !At(k, LParen)
    ensures Factor(Bare(Minimal, EName(x), k)) == Selectors(EName(x), k)
  {
    Reserved();
    if x == "adr" {
      hide Selectors, Ident;
      var rest := T(P(RParen), k);
      AdrAlone(rest);
      assert ParseExpr(T(Word("adr"), rest)) == Got(EName("adr"), rest);
    }
  }

  /** adr before a token that is not a word is an ordinary name. */
  lemma AdrAlone(k: Tokens)
    requires EndsExpr(k) && !(k.T? && k.head.Word?)
    ensures Factor(T(Word("adr"), k)) == Got(EName("adr"), k)
    ensures ParseExpr(T(Word("adr"), k)) == Got(EName("adr"), k)
  {
    Reserved();
    var ts, e := T(Word("adr"), k), EName("adr");
    assert Selectors(e, k) == Got(e, k);
    assert ParseName("adr", k) == Got(e, k);
    assert Factor(ts) == Got(e, k);
    assert Term(ts) == Got(e, k);
    assert Simple(ts) == Got(e, k);
  }

  lemma {:induction false} CallBack(f: string, args: Args, k: Tokens)
    requires Buildable(ECall(f, args))
    ensures Factor(Bare(Minimal, ECall(f, args), k)) == Selectors(ECall(f, args), k)
    decreases args, 9
  {
    Reserved();
    hide ParseExpr, Selectors, Ident;
    var open := T(P(LParen), PrintArgs(Minimal, args, k));
    assert Factor(T(Word(f), open)) == ParseName(f, open);
    if args.Arg? {
      ArgsOpen(args, k);
      ArgsBack(args, k);
    }
  }

  lemma ArgsOpen(args: Args, k: Tokens)
    requires args.Arg? && BuildableArgs(args)
    ensures !At(PrintArgs(Minimal, args, k), RParen)
  {
    PrintOpens(args.head, 1, if args.tail.NoArgs? then T(P(RParen), k) else T(P(Comma), PrintArgs(Minimal, args.tail, k)));
  }

  lemma {:induction false} ArgsBack(args: Args, k: Tokens)
    requires args.Arg? && BuildableArgs(args)
    ensures ParseArgs(PrintArgs(Minimal, args, k)) == GotArgs(args, k)
    decreases args, 8
  {
    hide Print, ParseExpr;
    var rest := if args.tail.NoArgs? then T(P(RParen), k) else T(P(Comma), PrintArgs(Minimal, args.tail, k));
    ExprBack(args.head, rest);
    if args.tail.Arg? { ArgsBack(args.tail, k); }
  }

  lemma {:induction false} BaseBack(e: Expr, k: Tokens)
    requires Buildable(e) && !At(k, LParen)
    ensures Factor(Base(Minimal, e, k)) == Selectors(e, k)
    decreases e, 7
  {
    hide Factor, Bare, Selectors;
    if Designator(e) { DesignatorBack(e, k); } else { ParenBack(e, k); }
  }

  /** A product goes on from what follows it. */
  lemma {:induction false} TermBack(e: Expr, k: Tokens)
    requires Buildable(e) && EndsFactor(k)
    ensures Term(Print(Minimal, e, 3, k)) == TermRest(e, k)
    decreases e, if Level(e) >= 3 then 3 else 21
  {
    hide Factor, Bare;
    if Level(e) == 3 {
      ProductBack(e, k);
    } else {
      FactorBack(e, k);
      assert Print(Minimal, e, 3, k) == Print(Minimal, e, 4, k);
    }
  }

  lemma {:induction false} ProductBack(e: Expr, k: Tokens)
    requires Buildable(e) && EndsFactor(k) && Level(e) == 3
    ensures Term(Bare(Minimal, e, k)) == TermRest(e, k)
    decreases e, 1
  {
    hide Factor, Term, Print;
    var right := Print(Minimal, e.r, 4, k);
    var rest := T(OpToken(e.op), right);
    TermBack(e.l, rest);
    FactorBack(e.r, k);
    PrintOpens(e.r, 4, k);
    MulToken(e.op, right);
    assert TermRest(e.l, rest) == TermRest(e, k);
    assert Bare(Minimal, e, k) == Print(Minimal, e.l, 3, rest);
  }

  lemma MulToken(op: BinOp, k: Tokens)
    requires (op.Mul? || op.RDiv? || op.IDiv? || op.Mod? || op.And?) && !AtWord(k, "then")
    ensures MulOp(T(OpToken(op), k)) == op && EndsFactor(T(OpToken(op), k))
  {
  }

  lemma AddToken(op: BinOp, k: Tokens)
    requires op.Add? || op.Sub? || op.Or?
    ensures AddOp(T(OpToken(op), k)) == op && EndsTerm(T(OpToken(op), k))
  {
  }

  lemma RelToken(op: BinOp, k: Tokens)
    requires op.Eq? || op.Ne? || op.Lt? || op.Le? || op.Gt? || op.Ge?
    ensures RelOp(T(OpToken(op), k)) == op && EndsSimple(T(OpToken(op), k))
  {
  }

  /** A sum goes on from what follows it. */
  lemma {:induction false} SimpleBack(e: Expr, k: Tokens)
    requires Buildable(e) && EndsTerm(k)
    ensures Simple(Print(Minimal, e, 2, k)) == SimpleRest(e, k)
    decreases e, if Level(e) >= 2 then 4 else 22
  {
    hide Factor, Term, Bare, TermRest, SimpleRest;
    if Level(e) == 2 {
      SumBack(e, k);
    } else {
      TermBack(e, k);
      assert Print(Minimal, e, 2, k) == Print(Minimal, e, 3, k);
      PrintOpens(e, 3, k);
      TermRestEnds(e, k);
    }
  }

  lemma TermRestEnds(e: Expr, k: Tokens)
    requires Buildable(e) && EndsTerm(k)
    ensures TermRest(e, k) == Got(e, k)
  {
  }

  lemma SimpleRestEnds(e: Expr, k: Tokens)
    requires Buildable(e) && EndsSimple(k)
    ensures SimpleRest(e, k) == Got(e, k)
  {
  }

  lemma {:induction false} SumBack(e: Expr, k: Tokens)
    requires Buildable(e) && EndsTerm(k) && Level(e) == 2
    ensures Simple(Bare(Minimal, e, k)) == SimpleRest(e, k)
    decreases e, 1
  {
    hide Factor, Term, Print, TermRest;
    if e.EUn? {
      TermBack(e.a, k);
      TermRestEnds(e.a, k);
    } else {
      hide Simple;
      var right := Print(Minimal, e.r, 3, k);
      var rest := T(OpToken(e.op), right);
      AddToken(e.op, right);
      SimpleBack(e.l, rest);
      TermBack(e.r, k);
      TermRestEnds(e.r, k);
      PrintOpens(e.r, 3, k);
      assert SimpleRest(e.l, rest) == SimpleRest(e, k);
      assert Bare(Minimal, e, k) == Print(Minimal, e.l, 2, rest);
    }
  }

  /** An expression is read back exactly, and reading stops where it ends. */
  lemma {:induction false} ExprBack(e: Expr, k: Tokens)
    requires Buildable(e) && EndsExpr(k)
    ensures ParseExpr(Print(Minimal, e, 1, k)) == Got(e, k)
    decreases e, 8
  {
    hide Bare, ParseExpr;
    BareBack(e, k);
  }

  lemma {:induction false} BareBack(e: Expr, k: Tokens)
    requires Buildable(e) && EndsExpr(k)
    ensures ParseExpr(Bare(Minimal, e, k)) == Got(e, k)
    decreases e, 5
  {
    hide Factor, Term, Print, Simple, SimpleRest;
    if Level(e) == 1 {
      RelationBack(e, k);
    } else {
      SimpleBack(e, k);
      SimpleRestEnds(e, k);
      PrintBare(e, 2, k);
    }
  }

  lemma PrintBare(e: Expr, n: nat, k: Tokens)
    requires Level(e) >= n
    ensures Print(Minimal, e, n, k) == Bare(Minimal, e, k)
  {
  }

  lemma {:induction false} RelationBack(e: Expr, k: Tokens)
    requires Buildable(e) && EndsExpr(k) && Level(e) == 1
    ensures ParseExpr(Bare(Minimal, e, k)) == Got(e, k)
    decreases e, 1
  {
    hide Factor, Term, Print, Simple, SimpleRest;
    var right := Print(Minimal, e.r, 2, k);
    var rest := T(OpToken(e.op), right);
    RelToken(e.op, right);
    SimpleBack(e.l, rest);
    SimpleRestEnds(e.l, rest);
    SimpleBack(e.r, k);
    SimpleRestEnds(e.r, k);
    assert Bare(Minimal, e, k) == Print(Minimal, e.l, 2, rest);
  }

  /** A condition goes on from what follows it. */
  lemma {:induction false} ConditionRest(e: Expr, k: Tokens)
    requires Condition(e) && EndsExpr(k)
    ensures BoolExpr(PrintCondition(Minimal, e, k)) == BoolRest(e, k)
  {
    hide ParseExpr, Print;
    if e.EBin? && e.op.AndThen? {
      var right := Print(Minimal, e.r, 1, k);
      var rest := T(Word("and"), T(Word("then"), right));
      ConditionRest(e.l, rest);
      ExprBack(e.r, k);
      assert BoolRest(e.l, rest) == BoolRest(e, k);
    } else {
      ExprBack(e, k);
    }
  }

  /** Main result: every tree the parser can build, printed with the
      parentheses it needs and followed by any token that cannot continue it,
      parses to that tree and stops there. */
  lemma RoundTrip(e: Expr, k: Tokens)
    requires Condition(e) && EndsCondition(k)
    ensures BoolExpr(PrintCondition(Minimal, e, k)) == Got(e, k)
    ensures Buildable(e) ==> ParseExpr(Print(Minimal, e, 1, k)) == Got(e, k)
  {
    hide ParseExpr, Print, BoolExpr;
    ConditionRest(e, k);
    if Buildable(e) { ExprBack(e, k); }
  }

  /** So the printed forms of two different trees differ. */
  lemma PrintInjective(e: Expr, f: Expr)
    requires Condition(e) && Condition(f) && PrintCondition(Minimal, e, Eof) == PrintCondition(Minimal, f, Eof)
    ensures e == f
  {
    hide PrintCondition, BoolExpr;
    RoundTrip(e, Eof);
    RoundTrip(f, Eof);
  }
}
