/** Expressions of the bootstrap subset: tokens, trees, the recursive-descent
    parser of bootstrap/parse.c as functions on the tokens still to come, and a
    printer that writes parentheses only where a tree needs them. */
module Grammar {
  import opened Operators

  datatype Punct =
    | LParen | RParen | LBrack | RBrack | Dot | Caret | Comma | Colon
    | Star | Slash | Plus | Minus
    | PEq | PNe | PLt | PLe | PGt | PGe
    | OtherPunct(code: nat)

  /** Words are folded to lower case by the lexer. */
  datatype Token =
    | TInt(v: int)
    | TReal(lexeme: string)
    | TStr(s: string)
    | TChar(c: char)
    | Word(text: string)
    | P(p: Punct)

  /** The tokens still to come; Eof is the end-of-file token. */
  datatype Tokens = Eof | T(head: Token, tail: Tokens)

  function Len(ts: Tokens): nat { if ts.Eof? then 0 else 1 + Len(ts.tail) }

  datatype Expr =
    | EInt(v: int)
    | EReal(lexeme: string)
    | EStr(s: string)
    | EChar(c: char)
    | EName(name: string)
    | ECall(name: string, args: Args)
    | EIndex(a: Expr, i: Expr)
    | EField(a: Expr, name: string)
    | EDeref(a: Expr)
    | EBin(op: BinOp, l: Expr, r: Expr)
    | EUn(uop: UnOp, a: Expr)
    | EAdr(name: string)

  datatype Args = NoArgs | Arg(head: Expr, tail: Args)

  const ReservedWords: set<string> := {
    "and", "array", "begin", "case", "const", "div", "do", "downto", "else",
    "end", "for", "function", "goto", "if", "in", "label", "mod", "not", "of",
    "or", "packed", "procedure", "program", "record", "repeat", "set", "then",
    "to", "type", "until", "var", "while", "with", "interface", "implementation",
    "unit", "uses", "otherwise", "value", "module", "xor"
  }

  predicate Ident(w: string) { w !in ReservedWords }

  // ---- the parser ----

  datatype Result = Fail | Got(e: Expr, rest: Tokens)
  datatype ArgsResult = NoMatch | GotArgs(args: Args, rest: Tokens)

  predicate At(ts: Tokens, p: Punct) { ts.T? && ts.head == P(p) }
  predicate AtWord(ts: Tokens, w: string) { ts.T? && ts.head == Word(w) }
  predicate AtIdent(ts: Tokens) { ts.T? && ts.head.Word? && Ident(ts.head.text) }

  /** AND is a multiplying operator unless THEN follows it. */
  function MulOp(ts: Tokens): (op: BinOp)
    ensures !op.AndThen? ==> ts.T? && (op.Mul? || op.RDiv? || op.IDiv? || op.Mod? || op.And?)
  {
    if At(ts, Star) then Mul
    else if At(ts, Slash) then RDiv
    else if AtWord(ts, "div") then IDiv
    else if AtWord(ts, "mod") then Mod
    else if AtWord(ts, "and") && !AtWord(ts.tail, "then") then And
    else AndThen
  }

  function RelOp(ts: Tokens): (op: BinOp)
    ensures !op.AndThen? ==> ts.T? && (op.Eq? || op.Ne? || op.Lt? || op.Le? || op.Gt? || op.Ge?)
  {
    if At(ts, PEq) then Eq
    else if At(ts, PNe) then Ne
    else if At(ts, PLt) then Lt
    else if At(ts, PLe) then Le
    else if At(ts, PGt) then Gt
    else if At(ts, PGe) then Ge
    else AndThen
  }

  function AddOp(ts: Tokens): (op: BinOp)
    ensures !op.AndThen? ==> ts.T? && (op.Add? || op.Sub? || op.Or?)
  {
    if At(ts, Plus) then Add
    else if At(ts, Minus) then Sub
    else if AtWord(ts, "or") then Or
    else AndThen
  }

  /** What every successful parse promises: it has used at least one token, and
      built a tree of the subset. */
  predicate Good(r: Result, ts: Tokens) {
    r.Got? ==> Len(r.rest) < Len(ts) && Buildable(r.e)
  }

  predicate GoodRest(r: Result, e: Expr, ts: Tokens) {
    Buildable(e) && r.Got? ==> Len(r.rest) <= Len(ts) && Buildable(r.e)
  }

  function Selectors(e: Expr, ts: Tokens): (r: Result)
    requires Buildable(e)
    ensures GoodRest(r, e, ts)
    decreases Len(ts), 0
  {
    if At(ts, LBrack) then
      var x := ParseExpr(ts.tail);
      if x.Got? && At(x.rest, RBrack) then Selectors(EIndex(e, x.e), x.rest.tail) else Fail
    else if At(ts, Dot) then
      if AtIdent(ts.tail) then
        assert Len(ts.tail.tail) < Len(ts.tail);
        Selectors(EField(e, ts.tail.head.text), ts.tail.tail)
      else Fail
    else if At(ts, Caret) then Selectors(EDeref(e), ts.tail)
    else Got(e, ts)
  }

  /** Arguments up to and including the closing parenthesis. */
  function ParseArgs(ts: Tokens): (r: ArgsResult)
    ensures r.GotArgs? ==> Len(r.rest) < Len(ts) && r.args.Arg? && BuildableArgs(r.args)
    decreases Len(ts), 5
  {
    var x := ParseExpr(ts);
    if x.Fail? then NoMatch
    else if At(x.rest, RParen) then GotArgs(Arg(x.e, NoArgs), x.rest.tail)
    else if At(x.rest, Comma) then
      var more := ParseArgs(x.rest.tail);
      if more.GotArgs? then GotArgs(Arg(x.e, more.args), more.rest) else NoMatch
    else NoMatch
  }

  function ParseName(w: string, ts: Tokens): (r: Result)
    requires Ident(w) && w != "ads"
    ensures r.Got? ==> Len(r.rest) <= Len(ts) && Buildable(r.e)
    decreases Len(ts), 6
  {
    if At(ts, LParen) then
      if At(ts.tail, RParen) then
        assert Len(ts.tail.tail) < Len(ts.tail);
        Selectors(ECall(w, NoArgs), ts.tail.tail)
      else
        var a := ParseArgs(ts.tail);
        if a.GotArgs? then Selectors(ECall(w, a.args), a.rest) else Fail
    else Selectors(EName(w), ts)
  }

  /** ADR of a bare identifier. */
  function ParseAdr(ts: Tokens): (r: Result)
    ensures Good(r, ts)
  {
    if !AtIdent(ts) || At(ts.tail, Dot) || At(ts.tail, LBrack) || At(ts.tail, Caret) then Fail
    else Got(EAdr(ts.head.text), ts.tail)
  }

  function Factor(ts: Tokens): (r: Result)
    ensures Good(r, ts)
    decreases Len(ts), 1
  {
    if ts.Eof? then Fail
    else match ts.head
      case TInt(v) => Got(EInt(v), ts.tail)
      case TReal(x) => Got(EReal(x), ts.tail)
      case TStr(s) => Got(EStr(s), ts.tail)
      case TChar(c) => Got(EChar(c), ts.tail)
      case P(p) =>
        if !p.LParen? then Fail
        else
          var x := ParseExpr(ts.tail);
          if x.Got? && At(x.rest, RParen) then Selectors(x.e, x.rest.tail) else Fail
      case Word(w) =>
        if w == "not" then
          var x := Factor(ts.tail);
          if x.Got? then Got(EUn(Not, x.e), x.rest) else Fail
        else if w == "adr" && ts.tail.T? && ts.tail.head.Word? then ParseAdr(ts.tail)
        else if w == "ads" || !Ident(w) then Fail
        else ParseName(w, ts.tail)
  }

  function TermRest(e: Expr, ts: Tokens): (r: Result)
    requires Buildable(e)
    ensures GoodRest(r, e, ts)
    decreases Len(ts), 0
  {
    var op := MulOp(ts);
    if op.AndThen? then Got(e, ts)
    else
      var x := Factor(ts.tail);
      if x.Got? then TermRest(EBin(op, e, x.e), x.rest) else Fail
  }

  function Term(ts: Tokens): (r: Result)
    ensures Good(r, ts)
    decreases Len(ts), 2
  {
    var x := Factor(ts);
    if x.Got? then TermRest(x.e, x.rest) else Fail
  }

  function SimpleRest(e: Expr, ts: Tokens): (r: Result)
    requires Buildable(e)
    ensures GoodRest(r, e, ts)
    decreases Len(ts), 0
  {
    var op := AddOp(ts);
    if op.AndThen? then (if AtWord(ts, "xor") then Fail else Got(e, ts))
    else if op.Or? && AtWord(ts.tail, "else") then Fail
    else
      var x := Term(ts.tail);
      if x.Got? then SimpleRest(EBin(op, e, x.e), x.rest) else Fail
  }

  function Simple(ts: Tokens): (r: Result)
    ensures Good(r, ts)
    decreases Len(ts), 3
  {
    if At(ts, Minus) then
      var x := Term(ts.tail);
      if x.Got? then SimpleRest(EUn(Neg, x.e), x.rest) else Fail
    else
      var x := if At(ts, Plus) then Term(ts.tail) else Term(ts);
      if x.Got? then SimpleRest(x.e, x.rest) else Fail
  }

  function ParseExpr(ts: Tokens): (r: Result)
    ensures Good(r, ts)
    decreases Len(ts), 4
  {
    var x := Simple(ts);
    if x.Fail? then Fail
    else
      var op := RelOp(x.rest);
      if op.AndThen? then (if AtWord(x.rest, "in") then Fail else x)
      else
        var y := Simple(x.rest.tail);
        if y.Got? then Got(EBin(op, x.e, y.e), y.rest) else Fail
  }

  /** An IF or WHILE condition: AND THEN binds more loosely than anything. */
  function BoolRest(e: Expr, ts: Tokens): (r: Result)
    requires Condition(e)
    ensures r.Got? ==> Len(r.rest) <= Len(ts) && Condition(r.e)
    decreases Len(ts)
  {
    if AtWord(ts, "and") && AtWord(ts.tail, "then") then
      assert Len(ts.tail.tail) < Len(ts.tail);
      var x := ParseExpr(ts.tail.tail);
      if x.Got? then BoolRest(EBin(AndThen, e, x.e), x.rest) else Fail
    else if AtWord(ts, "or") && AtWord(ts.tail, "else") then Fail
    else Got(e, ts)
  }

  function BoolExpr(ts: Tokens): (r: Result)
    ensures r.Got? ==> Len(r.rest) < Len(ts) && Condition(r.e)
  {
    var x := ParseExpr(ts);
    if x.Got? then BoolRest(x.e, x.rest) else Fail
  }

  // ---- the trees of the subset ----

  /** Trees without AND THEN, whose names the lexer and parser allow. */
  predicate Buildable(e: Expr) {
    match e
    case EName(x) => Ident(x) && x != "ads"
    case ECall(f, args) => Ident(f) && f != "ads" && BuildableArgs(args)
    case EIndex(a, i) => Buildable(a) && Buildable(i)
    case EField(a, f) => Buildable(a) && Ident(f)
    case EDeref(a) => Buildable(a)
    case EBin(op, l, r) => !op.AndThen? && Buildable(l) && Buildable(r)
    case EUn(_, a) => Buildable(a)
    case EAdr(x) => Ident(x)
    case _ => true
  }

  predicate BuildableArgs(a: Args) { a.Arg? ==> Buildable(a.head) && BuildableArgs(a.tail) }

  /** Conditions: AND THEN chains to the left, at the top only. */
  predicate Condition(e: Expr) {
    if e.EBin? && e.op.AndThen? then Condition(e.l) && Buildable(e.r) else Buildable(e)
  }

  // ---- the printer ----

  /** 1 a relation, 2 a sum, 3 a product, 4 a factor. */
  function Level(e: Expr): nat {
    match e
    case EBin(op, _, _) =>
      if op.Mul? || op.RDiv? || op.IDiv? || op.Mod? || op.And? then 3
      else if op.Add? || op.Sub? || op.Or? then 2
      else 1
    case EUn(Neg, _) => 2
    case _ => 4
  }

  function OpToken(op: BinOp): Token {
    match op
    case Mul => P(Star) case RDiv => P(Slash) case IDiv => Word("div") case Mod => Word("mod") case And => Word("and")
    case Add => P(Plus) case Sub => P(Minus) case Or => Word("or")
    case Eq => P(PEq) case Ne => P(PNe) case Lt => P(PLt) case Le => P(PLe) case Gt => P(PGt) case Ge => P(PGe)
    case AndThen => Word("and")
  }

  /** The forms selectors may follow without parentheses. */
  predicate Designator(e: Expr) {
    e.EName? || e.ECall? || e.EIndex? || e.EField? || e.EDeref?
  }

  /** Before a word the name adr would read as the operator. The minimal style
      parenthesises it there and nowhere else; the other never does. */
  datatype Style = Minimal | PlainAdr

  predicate WordNext(k: Tokens) { k.T? && k.head.Word? }

  /** e where the grammar asks for level at least n, before the tokens k. */
  function Print(style: Style, e: Expr, n: nat, k: Tokens): Tokens
    decreases e, 1
  {
    if Level(e) >= n then Bare(style, e, k) else T(P(LParen), Bare(style, e, T(P(RParen), k)))
  }

  function Base(style: Style, e: Expr, k: Tokens): Tokens
    decreases e, 1
  {
    if Designator(e) then Bare(style, e, k) else T(P(LParen), Bare(style, e, T(P(RParen), k)))
  }

  /** The tokens of e without parentheses around it. */
  function Bare(style: Style, e: Expr, k: Tokens): Tokens
    decreases e, 0
  {
    match e
    case EInt(v) => T(TInt(v), k)
    case EReal(x) => T(TReal(x), k)
    case EStr(s) => T(TStr(s), k)
    case EChar(c) => T(TChar(c), k)
    case EName(x) => if x == "adr" && style.Minimal? && WordNext(k) then T(P(LParen), T(Word(x), T(P(RParen), k))) else T(Word(x), k)
    case ECall(f, args) => T(Word(f), T(P(LParen), PrintArgs(style, args, k)))
    case EIndex(a, i) => Base(style, a, T(P(LBrack), Print(style, i, 1, T(P(RBrack), k))))
    case EField(a, f) => Base(style, a, T(P(Dot), T(Word(f), k)))
    case EDeref(a) => Base(style, a, T(P(Caret), k))
    case EBin(op, l, r) =>
      var n := Level(e);
      Print(style, l, if n == 1 then 2 else n, T(OpToken(op), Print(style, r, n + 1, k)))
    case EUn(op, a) => if op.Neg? then T(P(Minus), Print(style, a, 3, k)) else T(Word("not"), Print(style, a, 4, k))
    case EAdr(x) => T(Word("adr"), T(Word(x), k))
  }

  function PrintArgs(style: Style, a: Args, k: Tokens): Tokens
    decreases a
  {
    match a
    case NoArgs => T(P(RParen), k)
    case Arg(e, rest) => Print(style, e, 1, if rest.NoArgs? then T(P(RParen), k) else T(P(Comma), PrintArgs(style, rest, k)))
  }

  function PrintCondition(style: Style, e: Expr, k: Tokens): Tokens {
    if e.EBin? && e.op.AndThen? then PrintCondition(style, e.l, T(Word("and"), T(Word("then"), Print(style, e.r, 1, k))))
    else Print(style, e, 1, k)
  }
}
