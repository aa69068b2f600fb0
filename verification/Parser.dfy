/** The parser of bootstrap/parse.c as it runs: one cursor over the token array,
    advanced by every routine, with loops for selectors, terms and sums. Each
    routine is proved to compute the function of the same name in Grammar. */
module Parser {
  import opened Operators
  import opened Grammar
  import G = Grammar

  datatype Parsed = No | Yes(e: Expr)

  /** The tokens from position i on; the array ends with the end-of-file token. */
  ghost function From(tk: seq<Token>, i: nat): (ts: Tokens)
    requires i <= |tk|
    ensures Len(ts) == |tk| - i
    decreases |tk| - i
  {
    if i == |tk| then Eof else T(tk[i], From(tk, i + 1))
  }

  class Cursor {
    const tk: seq<Token>
    var pos: nat

    constructor (tk: seq<Token>)
      ensures this.tk == tk && pos == 0
    {
      this.tk, pos := tk, 0;
    }

    predicate InRange()
      reads this
    {
      pos <= |tk|
    }

    ghost function Here(): Tokens
      requires InRange()
      reads this
    {
      From(tk, pos)
    }

    /** The cursor stands where the functional parser says, on success. */
    ghost predicate Stands(p: Parsed, r: Result)
      reads this
    {
      InRange() && p.Yes? == r.Got? && (p.Yes? ==> p.e == r.e && Here() == r.rest)
    }

    predicate AtPunct(p: Punct)
      reads this
    {
      pos < |tk| && tk[pos] == P(p)
    }

    predicate AtWord(w: string)
      reads this
    {
      pos < |tk| && tk[pos] == Word(w)
    }

    /** The token after the current one is the word w. */
    predicate NextWord(w: string)
      reads this
    {
      pos + 1 < |tk| && tk[pos + 1] == Word(w)
    }

    method AcceptPunct(p: Punct) returns (ok: bool)
      requires InRange()
      modifies `pos
      ensures InRange() && ok == G.At(old(Here()), p) && pos == (if ok then old(pos) + 1 else old(pos))
      ensures ok ==> Here() == old(Here()).tail
    {
      ok := AtPunct(p);
      if ok { pos := pos + 1; }
    }

    /** * / DIV MOD, and AND unless THEN follows; AndThen for none of them. */
    method AcceptMulOp() returns (op: BinOp)
      requires InRange()
      modifies `pos
      ensures InRange() && op == MulOp(old(Here())) && pos == (if op.AndThen? then old(pos) else old(pos) + 1)
      ensures !op.AndThen? ==> Here() == old(Here()).tail
    {
      LookAhead(tk, pos);
      op := if AtPunct(Star) then Mul
            else if AtPunct(Slash) then RDiv
            else if AtWord("div") then IDiv
            else if AtWord("mod") then Mod
            else if AtWord("and") && !NextWord("then") then And
            else AndThen;
      if !op.AndThen? { pos := pos + 1; }
    }

    method AcceptAddOp() returns (op: BinOp)
      requires InRange()
      modifies `pos
      ensures InRange() && op == AddOp(old(Here())) && pos == (if op.AndThen? then old(pos) else old(pos) + 1)
      ensures !op.AndThen? ==> Here() == old(Here()).tail
    {
      LookAhead(tk, pos);
      op := if AtPunct(Plus) then Add else if AtPunct(Minus) then Sub else if AtWord("or") then Or else AndThen;
      if !op.AndThen? { pos := pos + 1; }
    }

    method AcceptRelOp() returns (op: BinOp)
      requires InRange()
      modifies `pos
      ensures InRange() && op == RelOp(old(Here())) && pos == (if op.AndThen? then old(pos) else old(pos) + 1)
      ensures !op.AndThen? ==> Here() == old(Here()).tail
    {
      LookAhead(tk, pos);
      op := if AtPunct(PEq) then Eq
            else if AtPunct(PNe) then Ne
            else if AtPunct(PLt) then Lt
            else if AtPunct(PLe) then Le
            else if AtPunct(PGt) then Gt
            else if AtPunct(PGe) then Ge
            else AndThen;
      if !op.AndThen? { pos := pos + 1; }
    }

    method Expression() returns (p: Parsed)
      requires InRange()
      modifies `pos
      ensures Stands(p, ParseExpr(old(Here()))) && (p.Yes? ==> pos > old(pos))
      decreases |tk| - pos, 4
    {
      hide G.Simple, Buildable;
      var l := SimpleExpr();
      if l.No? { return No; }
      var op := AcceptRelOp();
      if op.AndThen? { return if AtWord("in") then No else l; }
      var r := SimpleExpr();
      if r.No? { return No; }
      p := Yes(EBin(op, l.e, r.e));
    }

    method SimpleExpr() returns (p: Parsed)
      requires InRange()
      modifies `pos
      ensures Stands(p, G.Simple(old(Here()))) && (p.Yes? ==> pos > old(pos))
      decreases |tk| - pos, 3
    {
      hide G.Term, Buildable, SimpleRest;
      var neg := AcceptPunct(Minus);
      if !neg { var _ := AcceptPunct(Plus); }
      var t := TermExpr();
      if t.No? { return No; }
      NegBuildable(t.e);
      p := SumAfter(if neg then EUn(Neg, t.e) else t.e);
    }

    /** The loop of simple: + - OR, to the left. */
    method SumAfter(first: Expr) returns (p: Parsed)
      requires InRange() && Buildable(first)
      modifies `pos
      ensures Stands(p, SimpleRest(first, old(Here()))) && (p.Yes? ==> pos >= old(pos))
      decreases |tk| - pos, 5
    {
      hide G.Term, Buildable, SimpleRest, AddOp;
      ghost var whole := SimpleRest(first, Here());
      var e := first;
      ghost var start := pos;
      while true
        invariant InRange() && start <= pos && Buildable(e)
        invariant SimpleRest(e, Here()) == whole
        decreases |tk| - pos
      {
        SumUnfolds(e, Here());
        LookAhead(tk, pos);
        var op := AcceptAddOp();
        if op.AndThen? { return if AtWord("xor") then No else Yes(e); }
        if op.Or? && AtWord("else") { return No; }
        var r := TermExpr();
        if r.No? { return No; }
        e := EBin(op, e, r.e);
      }
    }

    method TermExpr() returns (p: Parsed)
      requires InRange()
      modifies `pos
      ensures Stands(p, G.Term(old(Here()))) && (p.Yes? ==> pos > old(pos) && Buildable(p.e))
      decreases |tk| - pos, 2
    {
      hide G.Factor, Buildable, TermRest, MulOp;
      ghost var whole := G.Term(Here());
      var f := FactorExpr();
      if f.No? { return No; }
      var e := f.e;
      ghost var start := pos;
      while true
        invariant InRange() && start <= pos && Buildable(e)
        invariant TermRest(e, Here()) == whole
        decreases |tk| - pos
      {
        TermUnfolds(e, Here());
        var op := AcceptMulOp();
        if op.AndThen? { return Yes(e); }
        var r := FactorExpr();
        if r.No? { return No; }
        e := EBin(op, e, r.e);
      }
    }

    method SelectorsAfter(first: Expr) returns (p: Parsed)
      requires InRange() && Buildable(first)
      modifies `pos
      ensures Stands(p, Selectors(first, old(Here()))) && (p.Yes? ==> pos >= old(pos))
      decreases |tk| - pos, 5
    {
      hide ParseExpr, Ident, Buildable, Selectors;
      ghost var whole := Selectors(first, Here());
      var e := first;
      ghost var start := pos;
      while true
        invariant InRange() && start <= pos && Buildable(e)
        invariant Selectors(e, Here()) == whole
        decreases |tk| - pos
      {
        LookAhead(tk, pos);
        SelectorsUnfold(e, Here());
        var ok := AcceptPunct(LBrack);
        if ok {
          var x := Expression();
          if x.No? { return No; }
          ok := AcceptPunct(RBrack);
          if !ok { return No; }
          e := EIndex(e, x.e);
        } else {
          ok := AcceptPunct(Dot);
          if ok {
            if !(pos < |tk| && tk[pos].Word? && Ident(tk[pos].text)) { return No; }
            e := EField(e, tk[pos].text);
            pos := pos + 1;
          } else {
            ok := AcceptPunct(Caret);
            if !ok { return Yes(e); }
            e := EDeref(e);
          }
        }
      }
    }

    method FactorExpr() returns (p: Parsed)
      requires InRange()
      modifies `pos
      ensures Stands(p, G.Factor(old(Here()))) && (p.Yes? ==> pos > old(pos) && Buildable(p.e))
      decreases |tk| - pos, 1
    {
      hide ParseExpr, Ident, Selectors, ParseName;
      if pos == |tk| { return No; }
      LookAhead(tk, pos);
      match tk[pos] {
        case TInt(v) => pos := pos + 1; p := Yes(EInt(v));
        case TReal(x) => pos := pos + 1; p := Yes(EReal(x));
        case TStr(s) => pos := pos + 1; p := Yes(EStr(s));
        case TChar(c) => pos := pos + 1; p := Yes(EChar(c));
        case P(_) =>
          var ok := AcceptPunct(LParen);
          if !ok { return No; }
          var x := Expression();
          if x.No? { return No; }
          ok := AcceptPunct(RParen);
          if !ok { return No; }
          p := SelectorsAfter(x.e);
        case Word(w) =>
          if w == "not" {
            pos := pos + 1;
            var x := FactorExpr();
            return if x.Yes? then Yes(EUn(Not, x.e)) else No;
          }
          if w == "adr" && pos + 1 < |tk| && tk[pos + 1].Word? {
            pos := pos + 1;
            p := AdrOperand();
            return;
          }
          if w == "ads" || !Ident(w) { return No; }
          pos := pos + 1;
          p := NameOrCall(w);
      }
    }

    method AdrOperand() returns (p: Parsed)
      requires InRange()
      modifies `pos
      ensures Stands(p, ParseAdr(old(Here()))) && (p.Yes? ==> pos > old(pos) && Buildable(p.e))
    {
      LookAhead(tk, pos);
      if !(pos < |tk| && tk[pos].Word? && Ident(tk[pos].text)) { return No; }
      p := Yes(EAdr(tk[pos].text));
      pos := pos + 1;
      if AtPunct(Dot) || AtPunct(LBrack) || AtPunct(Caret) { p := No; }
    }

    method NameOrCall(w: string) returns (p: Parsed)
      requires InRange() && Ident(w) && w != "ads"
      modifies `pos
      ensures Stands(p, ParseName(w, old(Here()))) && (p.Yes? ==> pos >= old(pos))
      decreases |tk| - pos, 6
    {
      hide ParseExpr, Selectors, ParseArgs, Ident;
      var ok := AcceptPunct(LParen);
      if !ok {
        p := SelectorsAfter(EName(w));
        return;
      }
      var none := AcceptPunct(RParen);
      if none {
        p := SelectorsAfter(ECall(w, NoArgs));
        return;
      }
      var found, args := Arguments();
      if !found { return No; }
      p := SelectorsAfter(ECall(w, args));
    }

    method Arguments() returns (found: bool, args: Args)
      requires InRange()
      modifies `pos
      ensures InRange()
      ensures var r := ParseArgs(old(Here()));
              found == r.GotArgs? && (found ==> args == r.args && Here() == r.rest && pos > old(pos))
      decreases |tk| - pos, 5
    {
      hide ParseExpr, Buildable;
      var x := Expression();
      if x.No? { return false, NoArgs; }
      var close := AcceptPunct(RParen);
      if close { return true, Arg(x.e, NoArgs); }
      var comma := AcceptPunct(Comma);
      if !comma { return false, NoArgs; }
      var rest;
      found, rest := Arguments();
      args := Arg(x.e, rest);
    }

    /** bool_expr. */
    method ConditionExpr() returns (p: Parsed)
      requires InRange()
      modifies `pos
      ensures Stands(p, BoolExpr(old(Here()))) && (p.Yes? ==> pos > old(pos))
    {
      hide ParseExpr, Buildable;
      ghost var whole := BoolExpr(Here());
      var x := Expression();
      if x.No? { return No; }
      var e := x.e;
      ConditionOf(e);
      ghost var start := pos;
      while true
        invariant InRange() && start <= pos && Condition(e)
        invariant BoolRest(e, Here()) == whole
        decreases |tk| - pos
      {
        LookAhead(tk, pos);
        if AtWord("and") && NextWord("then") {
          pos := pos + 2;
          var y := Expression();
          if y.No? { return No; }
          e := EBin(AndThen, e, y.e);
        } else if AtWord("or") && NextWord("else") {
          return No;
        } else {
          return Yes(e);
        }
      }
    }
  }

  /** The list of tokens to come, two tokens deep. */
  lemma LookAhead(tk: seq<Token>, i: nat)
    requires i <= |tk|
    ensures i < |tk| ==> From(tk, i) == T(tk[i], From(tk, i + 1))
    ensures i + 1 < |tk| ==> From(tk, i + 1) == T(tk[i + 1], From(tk, i + 2))
    ensures i + 1 == |tk| ==> From(tk, i + 1) == Eof
  {
  }

  // One turn of each loop.

  lemma SelectorsUnfold(e: Expr, ts: Tokens)
    requires Buildable(e)
    ensures At(ts, LBrack) ==> var x := ParseExpr(ts.tail);
              (x.Got? ==> Buildable(EIndex(e, x.e))) &&
              Selectors(e, ts) == if x.Got? && At(x.rest, RBrack) then Selectors(EIndex(e, x.e), x.rest.tail) else Fail
    ensures At(ts, Dot) && AtIdent(ts.tail) ==> Buildable(EField(e, ts.tail.head.text))
    ensures At(ts, Dot) ==>
              Selectors(e, ts) == if AtIdent(ts.tail) then Selectors(EField(e, ts.tail.head.text), ts.tail.tail) else Fail
    ensures At(ts, Caret) ==> Buildable(EDeref(e)) && Selectors(e, ts) == Selectors(EDeref(e), ts.tail)
    ensures !At(ts, LBrack) && !At(ts, Dot) && !At(ts, Caret) ==> Selectors(e, ts) == Got(e, ts)
  {
    hide ParseExpr, Ident;
  }

  lemma TermUnfolds(e: Expr, ts: Tokens)
    requires Buildable(e)
    ensures var op := MulOp(ts);
            if op.AndThen? then TermRest(e, ts) == Got(e, ts)
            else
              var x := G.Factor(ts.tail);
              (x.Got? ==> Buildable(EBin(op, e, x.e))) &&
              TermRest(e, ts) == if x.Got? then TermRest(EBin(op, e, x.e), x.rest) else Fail
  {
    hide G.Factor, MulOp;
  }

  lemma SumUnfolds(e: Expr, ts: Tokens)
    requires Buildable(e)
    ensures var op := AddOp(ts);
            if op.AndThen? then SimpleRest(e, ts) == if G.AtWord(ts, "xor") then Fail else Got(e, ts)
            else if op.Or? && G.AtWord(ts.tail, "else") then SimpleRest(e, ts) == Fail
            else
              var x := G.Term(ts.tail);
              (x.Got? ==> Buildable(EBin(op, e, x.e))) &&
              SimpleRest(e, ts) == if x.Got? then SimpleRest(EBin(op, e, x.e), x.rest) else Fail
  {
    hide G.Term, AddOp;
  }

  lemma ConditionOf(e: Expr)
    requires Buildable(e)
    ensures Condition(e)
  {
  }

  lemma NegBuildable(e: Expr)
    requires Buildable(e)
    ensures Buildable(EUn(Neg, e))
  {
  }
}
