/** The minimal printing is the shortest: no token string that parses to a tree
    has fewer tokens than the printed one. Every pair of parentheses it writes
    is therefore needed, those around the name adr included. */
module Shortest {
  import opened Operators
  import opened Grammar
  import opened ParserProof

  // ---- how many tokens a printed tree has ----

  /** Before a word (w) or any other token. */
  function Cost(style: Style, e: Expr, n: nat, w: bool): nat
    decreases e, 1
  {
    if Level(e) >= n then BareCost(style, e, w) else BareCost(style, e, false) + 2
  }

  function BaseCost(style: Style, e: Expr, w: bool): nat
    decreases e, 1
  {
    if Designator(e) then BareCost(style, e, w) else BareCost(style, e, false) + 2
  }

  function BareCost(style: Style, e: Expr, w: bool): nat
    decreases e, 0
  {
    match e
    case EName(x) => if x == "adr" && style.Minimal? && w then 3 else 1
    case ECall(_, args) => 2 + ArgsCost(style, args)
    case EIndex(a, i) => BaseCost(style, a, false) + 1 + Cost(style, i, 1, false) + 1
    case EField(a, _) => BaseCost(style, a, false) + 2
    case EDeref(a) => BaseCost(style, a, false) + 1
    case EBin(op, l, r) => Cost(style, l, LeftLevel(e), OpToken(op).Word?) + 1 + Cost(style, r, Level(e) + 1, w)
    case EUn(op, a) => 1 + Cost(style, a, if op.Neg? then 3 else 4, w)
    case EAdr(_) => 2
    case _ => 1
  }

  function ArgsCost(style: Style, a: Args): nat
    decreases a
  {
    match a
    case NoArgs => 1
    case Arg(e, rest) => Cost(style, e, 1, false) + 1 + if rest.NoArgs? then 0 else ArgsCost(style, rest)
  }

  function ConditionCost(style: Style, e: Expr, w: bool): nat {
    if e.EBin? && e.op.AndThen? then ConditionCost(style, e.l, true) + 2 + Cost(style, e.r, 1, w) else Cost(style, e, 1, w)
  }

  function LeftLevel(e: Expr): nat { if Level(e) == 1 then 2 else Level(e) }

  lemma {:induction false} PrintLen(style: Style, e: Expr, n: nat, k: Tokens)
    ensures Len(Print(style, e, n, k)) == Cost(style, e, n, WordNext(k)) + Len(k)
    decreases e, 1
  {
    if Level(e) >= n { BareLen(style, e, k); } else { BareLen(style, e, T(P(RParen), k)); }
  }

  lemma {:induction false} BaseLen(style: Style, e: Expr, k: Tokens)
    ensures Len(Base(style, e, k)) == BaseCost(style, e, WordNext(k)) + Len(k)
    decreases e, 1
  {
    if Designator(e) { BareLen(style, e, k); } else { BareLen(style, e, T(P(RParen), k)); }
  }

  lemma {:induction false} BareLen(style: Style, e: Expr, k: Tokens)
    ensures Len(Bare(style, e, k)) == BareCost(style, e, WordNext(k)) + Len(k)
    decreases e, 0, 1
  {
    hide Print, Cost, Base, BaseCost, PrintArgs, ArgsCost;
    assert Len(T(P(RParen), k)) == Len(k) + 1;
    match e
    case EName(x) => assert Len(T(Word(x), T(P(RParen), k))) == Len(k) + 2;
    case ECall(f, args) =>
      ArgsLen(style, args, k);
      assert Len(T(P(LParen), PrintArgs(style, args, k))) == 1 + Len(PrintArgs(style, args, k));
    case EAdr(x) => assert Len(T(Word(x), k)) == Len(k) + 1;
    case EIndex(a, i) => IndexLen(style, a, i, k);
    case EField(a, f) => BaseLen(style, a, T(P(Dot), T(Word(f), k)));
    case EDeref(a) => BaseLen(style, a, T(P(Caret), k));
    case EBin(op, l, r) =>
      PrintLen(style, r, Level(e) + 1, k);
      PrintLen(style, l, LeftLevel(e), T(OpToken(op), Print(style, r, Level(e) + 1, k)));
    case EUn(op, a) => PrintLen(style, a, if op.Neg? then 3 else 4, k);
    case _ =>
  }

  lemma {:induction false} IndexLen(style: Style, a: Expr, i: Expr, k: Tokens)
    ensures Len(Base(style, a, T(P(LBrack), Print(style, i, 1, T(P(RBrack), k))))) ==
            BaseCost(style, a, false) + 1 + Cost(style, i, 1, false) + 1 + Len(k)
    decreases EIndex(a, i), 0, 0
  {
    hide Print, Cost, Base, BaseCost;
    PrintLen(style, i, 1, T(P(RBrack), k));
    BaseLen(style, a, T(P(LBrack), Print(style, i, 1, T(P(RBrack), k))));
  }

  lemma {:induction false} ArgsLen(style: Style, a: Args, k: Tokens)
    ensures Len(PrintArgs(style, a, k)) == ArgsCost(style, a) + Len(k)
    decreases a
  {
    hide Cost, Print;
    if a.Arg? {
      if a.tail.NoArgs? {
        PrintLen(style, a.head, 1, T(P(RParen), k));
      } else {
        ArgsLen(style, a.tail, k);
        PrintLen(style, a.head, 1, T(P(Comma), PrintArgs(style, a.tail, k)));
      }
    }
  }

  lemma {:induction false} ConditionLen(style: Style, e: Expr, k: Tokens)
    ensures Len(PrintCondition(style, e, k)) == ConditionCost(style, e, WordNext(k)) + Len(k)
  {
    PrintLen(style, e, 1, k);
    if e.EBin? && e.op.AndThen? {
      PrintLen(style, e.r, 1, k);
      ConditionLen(style, e.l, T(Word("and"), T(Word("then"), Print(style, e.r, 1, k))));
    }
  }

  // ---- no parse uses fewer tokens ----

  /** A following word costs at most the parentheses around a last adr. */
  lemma {:induction false} WordCosts(e: Expr, w: bool)
    ensures BareCost(Minimal, e, w) <= BareCost(Minimal, e, false) + 2
  {
    match e
    case EBin(_, _, r) => WordCosts(r, w);
    case EUn(_, a) => WordCosts(a, w);
    case _ =>
  }

  /** A weaker position never costs more. */
  lemma CostFalls(e: Expr, m: nat, n: nat, w: bool)
    requires m <= n
    ensures Cost(Minimal, e, m, w) <= Cost(Minimal, e, n, w) <= BareCost(Minimal, e, false) + 2
    ensures n <= 4 ==> Cost(Minimal, e, n, w) <= BaseCost(Minimal, e, w) <= BareCost(Minimal, e, false) + 2
  {
    WordCosts(e, w);
  }

  /** r was read from ts, at no less than the given cost. */
  predicate Paid(r: Result, cost: nat, ts: Tokens) { r.Got? ==> cost + Len(r.rest) <= Len(ts) }

  /** With c tokens read for e, the selectors after it are paid for too. */
  lemma {:induction false} SelectorsPaid(e: Expr, ts: Tokens, c: nat)
    requires Buildable(e) && c >= BaseCost(Minimal, e, WordNext(ts)) && Selectors(e, ts).Got?
    ensures var r := Selectors(e, ts); BaseCost(Minimal, r.e, WordNext(r.rest)) + Len(r.rest) <= c + Len(ts)
    decreases Len(ts), 0
  {
    hide ParseExpr, Buildable;
    if At(ts, LBrack) {
      IndexBuilt(e, ts.tail);
      var x := ParseExpr(ts.tail);
      ExprPaid(ts.tail);
      SelectorsPaid(EIndex(e, x.e), x.rest.tail, c + Len(ts) - Len(x.rest.tail));
    } else if At(ts, Dot) {
      FieldBuilt(e, ts.tail);
      SelectorsPaid(EField(e, ts.tail.head.text), ts.tail.tail, c + 2);
    } else if At(ts, Caret) {
      DerefBuilt(e);
      SelectorsPaid(EDeref(e), ts.tail, c + 1);
    }
  }

  lemma IndexBuilt(e: Expr, ts: Tokens)
    requires Buildable(e)
    ensures var x := ParseExpr(ts); x.Got? ==> Len(x.rest) < Len(ts) && Buildable(x.e) && Buildable(EIndex(e, x.e))
  {
    hide ParseExpr;
  }

  lemma FieldBuilt(e: Expr, ts: Tokens)
    requires Buildable(e)
    ensures AtIdent(ts) ==> Buildable(EField(e, ts.head.text)) && Len(ts) == Len(ts.tail) + 1
  {
  }

  lemma DerefBuilt(e: Expr)
    requires Buildable(e)
    ensures Buildable(EDeref(e))
  {
  }

  lemma {:induction false} ArgsPaid(ts: Tokens)
    requires ParseArgs(ts).GotArgs?
    ensures var r := ParseArgs(ts); ArgsCost(Minimal, r.args) + Len(r.rest) <= Len(ts)
    decreases Len(ts), 5
  {
    hide ParseExpr;
    var x := ParseExpr(ts);
    ExprPaid(ts);
    if At(x.rest, Comma) { ArgsPaid(x.rest.tail); }
  }

  lemma {:induction false} NamePaid(w: string, ts: Tokens)
    requires Ident(w) && w != "ads" && ParseName(w, ts).Got? && (w == "adr" ==> !WordNext(ts))
    ensures var r := ParseName(w, ts); Cost(Minimal, r.e, 4, WordNext(r.rest)) + Len(r.rest) <= Len(ts) + 1
    decreases Len(ts), 6
  {
    hide ParseExpr, Selectors, Ident, ParseArgs, Cost, BaseCost, ArgsCost;
    var r := ParseName(w, ts);
    CostFalls(r.e, 4, 4, WordNext(r.rest));
    if !At(ts, LParen) {
      NameCost(w, WordNext(ts));
      SelectorsPaid(EName(w), ts, 1);
    } else if At(ts.tail, RParen) {
      NoArgsBuilt(w, ts);
      NoArgsCost();
      CallCost(w, NoArgs, WordNext(ts.tail.tail));
      SelectorsPaid(ECall(w, NoArgs), ts.tail.tail, 3);
    } else {
      var a := ParseArgs(ts.tail);
      ArgsPaid(ts.tail);
      CallBuilt(w, ts.tail);
      CallCost(w, a.args, WordNext(a.rest));
      SelectorsPaid(ECall(w, a.args), a.rest, 1 + Len(ts) - Len(a.rest));
    }
  }

  lemma NameCost(x: string, w: bool)
    requires x == "adr" ==> !w
    ensures BaseCost(Minimal, EName(x), w) == 1
  {
  }

  lemma CallCost(f: string, args: Args, w: bool)
    ensures BaseCost(Minimal, ECall(f, args), w) == 2 + ArgsCost(Minimal, args)
  {
    hide ArgsCost, Cost;
  }

  lemma NoArgsCost()
    ensures ArgsCost(Minimal, NoArgs) == 1
  {
  }

  lemma NoArgsBuilt(w: string, ts: Tokens)
    requires Ident(w) && w != "ads" && At(ts, LParen) && At(ts.tail, RParen)
    ensures Buildable(ECall(w, NoArgs)) && Len(ts) == Len(ts.tail.tail) + 2
  {
    assert Len(ts.tail) == Len(ts.tail.tail) + 1;
  }

  lemma CallBuilt(w: string, ts: Tokens)
    requires Ident(w) && w != "ads"
    ensures var a := ParseArgs(ts); a.GotArgs? ==> Buildable(ECall(w, a.args)) && Len(a.rest) < Len(ts)
  {
    hide ParseArgs, Ident;
  }

  lemma {:induction false} FactorPaid(ts: Tokens)
    ensures var r := Factor(ts); r.Got? ==> Paid(r, Cost(Minimal, r.e, 4, WordNext(r.rest)), ts)
    decreases Len(ts), 1
  {
    hide ParseExpr, Selectors, ParseName;
    var r := Factor(ts);
    if r.Got? {
      match ts.head
      case P(_) => ParenPaid(ts);
      case Word(w) =>
        if w == "not" {
          FactorPaid(ts.tail);
        } else if !(w == "adr" && WordNext(ts.tail)) {
          NamePaid(w, ts.tail);
        }
      case _ =>
    }
  }

  lemma {:induction false} ParenPaid(ts: Tokens)
    requires Factor(ts).Got? && ts.head.P?
    ensures var r := Factor(ts); Paid(r, Cost(Minimal, r.e, 4, WordNext(r.rest)), ts)
    decreases Len(ts), 0
  {
    hide ParseExpr, Selectors;
    var x := ParseExpr(ts.tail);
    ExprPaid(ts.tail);
    CostFalls(x.e, 1, 4, WordNext(x.rest.tail));
    CostFalls(x.e, 0, 1, false);
    BareLeast(x.e);
    SelectorsPaid(x.e, x.rest.tail, Len(ts) - Len(x.rest.tail));
    var r := Factor(ts);
    CostFalls(r.e, 4, 4, WordNext(r.rest));
  }

  lemma BareLeast(e: Expr)
    ensures Cost(Minimal, e, 1, false) == BareCost(Minimal, e, false)
  {
  }

  lemma {:induction false} TermRestPaid(e: Expr, ts: Tokens, c: nat)
    requires Buildable(e) && c >= Cost(Minimal, e, 3, WordNext(ts)) && TermRest(e, ts).Got?
    ensures var r := TermRest(e, ts); Cost(Minimal, r.e, 3, WordNext(r.rest)) + Len(r.rest) <= c + Len(ts)
    decreases Len(ts), 0
  {
    hide Factor, Buildable;
    var op := MulOp(ts);
    if !op.AndThen? {
      var x := Factor(ts.tail);
      FactorPaid(ts.tail);
      FactorBuilt(op, e, ts.tail);
      TermRestPaid(EBin(op, e, x.e), x.rest, c + Len(ts) - Len(x.rest));
    }
  }

  lemma FactorBuilt(op: BinOp, e: Expr, ts: Tokens)
    requires Buildable(e) && !op.AndThen?
    ensures var x := Factor(ts); x.Got? ==> Buildable(EBin(op, e, x.e)) && Len(x.rest) < Len(ts)
    ensures var x := Term(ts); x.Got? ==> Buildable(EBin(op, e, x.e)) && Len(x.rest) < Len(ts)
  {
    hide Factor, Term;
  }

  lemma {:induction false} TermPaid(ts: Tokens)
    ensures var r := Term(ts); r.Got? ==> Paid(r, Cost(Minimal, r.e, 3, WordNext(r.rest)), ts)
    decreases Len(ts), 2
  {
    hide Factor, TermRest;
    var x := Factor(ts);
    if Term(ts).Got? {
      FactorPaid(ts);
      CostFalls(x.e, 3, 4, WordNext(x.rest));
      TermRestPaid(x.e, x.rest, Len(ts) - Len(x.rest));
    }
  }

  lemma {:induction false} SimpleRestPaid(e: Expr, ts: Tokens, c: nat)
    requires Buildable(e) && c >= Cost(Minimal, e, 2, WordNext(ts)) && SimpleRest(e, ts).Got?
    ensures var r := SimpleRest(e, ts); Cost(Minimal, r.e, 2, WordNext(r.rest)) + Len(r.rest) <= c + Len(ts)
    decreases Len(ts), 0
  {
    hide Term, Buildable;
    var op := AddOp(ts);
    if !op.AndThen? {
      var x := Term(ts.tail);
      TermPaid(ts.tail);
      FactorBuilt(op, e, ts.tail);
      SimpleRestPaid(EBin(op, e, x.e), x.rest, c + Len(ts) - Len(x.rest));
    }
  }

  lemma {:induction false} SimplePaid(ts: Tokens)
    ensures var r := Simple(ts); r.Got? ==> Paid(r, Cost(Minimal, r.e, 2, WordNext(r.rest)), ts)
    decreases Len(ts), 3
  {
    hide Term, SimpleRest;
    if Simple(ts).Got? {
      var signed := At(ts, Minus) || At(ts, Plus);
      var after := if signed then ts.tail else ts;
      var x := Term(after);
      TermPaid(after);
      CostFalls(x.e, 2, 3, WordNext(x.rest));
      var e := if At(ts, Minus) then EUn(Neg, x.e) else x.e;
      SimpleRestPaid(e, x.rest, Len(ts) - Len(x.rest));
    }
  }

  lemma {:induction false} ExprPaid(ts: Tokens)
    ensures var r := ParseExpr(ts); r.Got? ==> Paid(r, Cost(Minimal, r.e, 1, WordNext(r.rest)), ts)
    decreases Len(ts), 4
  {
    hide Simple;
    var x := Simple(ts);
    if ParseExpr(ts).Got? {
      SimplePaid(ts);
      CostFalls(x.e, 1, 2, WordNext(x.rest));
      var op := RelOp(x.rest);
      if !op.AndThen? { SimplePaid(x.rest.tail); }
    }
  }

  lemma {:induction false} BoolRestPaid(e: Expr, ts: Tokens, c: nat)
    requires Condition(e) && c >= ConditionCost(Minimal, e, WordNext(ts)) && BoolRest(e, ts).Got?
    ensures var r := BoolRest(e, ts); ConditionCost(Minimal, r.e, WordNext(r.rest)) + Len(r.rest) <= c + Len(ts)
    decreases Len(ts)
  {
    hide ParseExpr;
    if AtWord(ts, "and") && AtWord(ts.tail, "then") {
      assert Len(ts.tail) == Len(ts.tail.tail) + 1;
      var x := ParseExpr(ts.tail.tail);
      ExprPaid(ts.tail.tail);
      BoolRestPaid(EBin(AndThen, e, x.e), x.rest, c + Len(ts) - Len(x.rest));
    }
  }

  /** Main result: whatever token string parses to e and stops before k, it has
      at least as many tokens as the minimal printing of e before k. Dropping a
      pair of parentheses from that printing never leaves a text for e. */
  lemma NoShorter(ts: Tokens, e: Expr, k: Tokens)
    requires ParseExpr(ts) == Got(e, k)
    ensures Len(ts) >= Len(Print(Minimal, e, 1, k))
  {
    hide ParseExpr;
    ExprPaid(ts);
    PrintLen(Minimal, e, 1, k);
  }

  lemma NoShorterCondition(ts: Tokens, e: Expr, k: Tokens)
    requires BoolExpr(ts) == Got(e, k)
    ensures Len(ts) >= Len(PrintCondition(Minimal, e, k))
  {
    hide ParseExpr, BoolRest;
    var x := ParseExpr(ts);
    ExprPaid(ts);
    PlainCondition(x.e, WordNext(x.rest));
    BoolRestPaid(x.e, x.rest, Len(ts) - Len(x.rest));
    ConditionLen(Minimal, e, k);
  }

  lemma PlainCondition(e: Expr, w: bool)
    requires Buildable(e)
    ensures ConditionCost(Minimal, e, w) == Cost(Minimal, e, 1, w)
  {
  }

  // ---- the name adr without parentheses ----

  /** Somewhere in the printing of e before a word (w) or another token, the
      bare name adr stands before a word. */
  predicate AdrBeforeWord(e: Expr, n: nat, w: bool)
    decreases e, 1
  {
    BareAdr(e, Level(e) >= n && w)
  }

  predicate BareAdr(e: Expr, w: bool)
    decreases e, 0
  {
    match e
    case EName(x) => x == "adr" && w
    case ECall(_, args) => ArgsAdr(args)
    case EIndex(a, i) => BareAdr(a, false) || AdrBeforeWord(i, 1, false)
    case EField(a, _) => BareAdr(a, false)
    case EDeref(a) => BareAdr(a, false)
    case EBin(op, l, r) => AdrBeforeWord(l, LeftLevel(e), OpToken(op).Word?) || AdrBeforeWord(r, Level(e) + 1, w)
    case EUn(op, a) => AdrBeforeWord(a, if op.Neg? then 3 else 4, w)
    case _ => false
  }

  predicate ArgsAdr(a: Args) { a.Arg? && (AdrBeforeWord(a.head, 1, false) || ArgsAdr(a.tail)) }

  predicate ConditionAdr(e: Expr, w: bool) {
    if e.EBin? && e.op.AndThen? then ConditionAdr(e.l, true) || AdrBeforeWord(e.r, 1, w) else AdrBeforeWord(e, 1, w)
  }

  /** Leaving out the parentheses saves tokens exactly where there are any. */
  lemma {:induction false} BareSaves(e: Expr, w: bool)
    ensures BareCost(PlainAdr, e, w) <= BareCost(Minimal, e, w)
    ensures BareCost(PlainAdr, e, w) < BareCost(Minimal, e, w) <==> BareAdr(e, w)
    decreases e, 0
  {
    hide Cost, AdrBeforeWord, ArgsCost, ArgsAdr;
    match e
    case ECall(_, args) => ArgsSave(args);
    case EIndex(a, i) => BareSaves(a, false); PrintSaves(i, 1, false);
    case EField(a, _) => BareSaves(a, false);
    case EDeref(a) => BareSaves(a, false);
    case EBin(op, l, r) =>
      PrintSaves(l, LeftLevel(e), OpToken(op).Word?);
      PrintSaves(r, Level(e) + 1, w);
    case EUn(op, a) => PrintSaves(a, if op.Neg? then 3 else 4, w);
    case _ =>
  }

  lemma {:induction false} PrintSaves(e: Expr, n: nat, w: bool)
    ensures Cost(PlainAdr, e, n, w) <= Cost(Minimal, e, n, w)
    ensures Cost(PlainAdr, e, n, w) < Cost(Minimal, e, n, w) <==> AdrBeforeWord(e, n, w)
    decreases e, 1
  {
    hide BareCost, BareAdr;
    BareSaves(e, Level(e) >= n && w);
  }

  lemma {:induction false} ArgsSave(a: Args)
    ensures ArgsCost(PlainAdr, a) <= ArgsCost(Minimal, a)
    ensures ArgsCost(PlainAdr, a) < ArgsCost(Minimal, a) <==> ArgsAdr(a)
    decreases a
  {
    hide Cost, AdrBeforeWord;
    if a.Arg? {
      PrintSaves(a.head, 1, false);
      ArgsSave(a.tail);
    }
  }

  lemma {:induction false} ConditionSaves(e: Expr, w: bool)
    ensures ConditionCost(PlainAdr, e, w) <= ConditionCost(Minimal, e, w)
    ensures ConditionCost(PlainAdr, e, w) < ConditionCost(Minimal, e, w) <==> ConditionAdr(e, w)
  {
    hide Cost, AdrBeforeWord;
    if e.EBin? && e.op.AndThen? {
      ConditionSaves(e.l, true);
      PrintSaves(e.r, 1, w);
    } else {
      PrintSaves(e, 1, w);
    }
  }

  /** And otherwise the two styles print the same text. */
  lemma {:induction false} BareSame(e: Expr, k: Tokens)
    requires !BareAdr(e, WordNext(k))
    ensures Bare(PlainAdr, e, k) == Bare(Minimal, e, k)
    decreases e, 0
  {
    match e
    case ECall(_, args) => ArgsSame(args, k);
    case EIndex(a, i) =>
      PrintSame(i, 1, T(P(RBrack), k));
      BaseSame(a, T(P(LBrack), Print(Minimal, i, 1, T(P(RBrack), k))));
    case EField(a, f) => BaseSame(a, T(P(Dot), T(Word(f), k)));
    case EDeref(a) => BaseSame(a, T(P(Caret), k));
    case EBin(op, l, r) =>
      PrintSame(r, Level(e) + 1, k);
      PrintSame(l, LeftLevel(e), T(OpToken(op), Print(Minimal, r, Level(e) + 1, k)));
    case EUn(op, a) => PrintSame(a, if op.Neg? then 3 else 4, k);
    case _ =>
  }

  lemma {:induction false} PrintSame(e: Expr, n: nat, k: Tokens)
    requires !AdrBeforeWord(e, n, WordNext(k))
    ensures Print(PlainAdr, e, n, k) == Print(Minimal, e, n, k)
    decreases e, 1
  {
    BareSame(e, if Level(e) >= n then k else T(P(RParen), k));
  }

  lemma {:induction false} BaseSame(e: Expr, k: Tokens)
    requires !BareAdr(e, false) && !WordNext(k)
    ensures Base(PlainAdr, e, k) == Base(Minimal, e, k)
    decreases e, 1
  {
    BareSame(e, if Designator(e) then k else T(P(RParen), k));
  }

  lemma {:induction false} ArgsSame(a: Args, k: Tokens)
    requires !ArgsAdr(a)
    ensures PrintArgs(PlainAdr, a, k) == PrintArgs(Minimal, a, k)
    decreases a
  {
    if a.Arg? {
      ArgsSame(a.tail, k);
      PrintSame(a.head, 1, if a.tail.NoArgs? then T(P(RParen), k) else T(P(Comma), PrintArgs(Minimal, a.tail, k)));
    }
  }

  lemma {:induction false} ConditionSame(e: Expr, k: Tokens)
    requires !ConditionAdr(e, WordNext(k))
    ensures PrintCondition(PlainAdr, e, k) == PrintCondition(Minimal, e, k)
  {
    if e.EBin? && e.op.AndThen? {
      PrintSame(e.r, 1, k);
      ConditionSame(e.l, T(Word("and"), T(Word("then"), Print(Minimal, e.r, 1, k))));
    } else {
      PrintSame(e, 1, k);
    }
  }

  /** The exact condition: written without any parentheses around adr, a tree is
      parsed back if and only if no bare adr stands before a word. */
  lemma PlainAdrExactly(e: Expr, k: Tokens)
    requires Condition(e) && EndsCondition(k)
    ensures BoolExpr(PrintCondition(PlainAdr, e, k)) == Got(e, k) <==> !ConditionAdr(e, WordNext(k))
  {
    hide BoolExpr, PrintCondition, ConditionAdr, ConditionCost;
    var ts := PrintCondition(PlainAdr, e, k);
    RoundTrip(e, k);
    ConditionSaves(e, WordNext(k));
    ConditionLen(PlainAdr, e, k);
    ConditionLen(Minimal, e, k);
    if ConditionAdr(e, WordNext(k)) {
      if BoolExpr(ts) == Got(e, k) { NoShorterCondition(ts, e, k); }
    } else {
      ConditionSame(e, k);
    }
  }

  /** adr DIV 2, which parses for every other name, is such a tree, and is
      rejected. */
  lemma AdrDivTwo(k: Tokens)
    requires EndsCondition(k)
    ensures var e := EBin(IDiv, EName("adr"), EInt(2));
            Condition(e) && PrintCondition(PlainAdr, e, k) == T(Word("adr"), T(Word("div"), T(TInt(2), k))) &&
            BoolExpr(PrintCondition(PlainAdr, e, k)) == Fail
  {
    var e := EBin(IDiv, EName("adr"), EInt(2));
    Reserved();
    var ts := T(Word("adr"), T(Word("div"), T(TInt(2), k)));
    assert Factor(ts) == Fail;
    assert Term(ts) == Fail;
    assert Simple(ts) == Fail;
    assert ParseExpr(ts) == Fail;
    assert Bare(PlainAdr, e, k) == ts;
  }
}
