/** From the parser's trees to the scalar trees of the translator: which calls
    are builtins (gen_expr and gen_builtin of bootstrap/emit.c), and what the C
    of a source text evaluates to. */
module FrontEnd {
  import opened Bits
  import opened Operators
  import G = Grammar
  import P = ParserProof
  import D = Derivation
  import opened PascalSource
  import opened CTarget
  import opened Emit
  import opened ExprPreservation

  /** The scalar expression a parsed tree stands for, where types names the
      scalar types; None for the forms outside the scalar subset. */
  function Lower(types: map<string, Ty>, g: G.Expr): Option<Expr> {
    match g
    case EInt(v) => if -0x8000_0000_0000_0000 <= v < 0x8000_0000_0000_0000 then Some(EInt(v)) else None
    case EChar(c) => if c as int < 256 then Some(EChar(c as int)) else None
    case EName(x) => Some(EName(x))
    case EBin(op, l, r) =>
      var a, b := Lower(types, l), Lower(types, r);
      if a.Some? && b.Some? then Some(EBin(op, a.value, b.value)) else None
    case EUn(op, x) =>
      var a := Lower(types, x);
      if a.Some? then Some(EUn(op, a.value)) else None
    case ECall(f, Arg(x, NoArgs)) =>
      var a := Lower(types, x);
      if a.None? then None
      else if f == "ord" then Some(EOrd(a.value))
      else if f == "chr" then Some(EChr(a.value))
      else None
    case ECall(f, Arg(EName(t), Arg(x, NoArgs))) =>
      var a := Lower(types, x);
      if f == "retype" && t in types && a.Some? then Some(ERetype(types[t], a.value)) else None
    case _ => None
  }

  /** The C of a parsed tree, or None when the translator rejects it. */
  function Translate(types: map<string, Ty>, env: Env, g: G.Expr): Option<CE> {
    var e := Lower(types, g);
    if e.Some? then GenExpr(env, e.value) else None
  }

  // ---- what a parsed tree means, said of the tree itself ----

  datatype Meaning = Meaning(ty: Ty, v: Value)

  /** The value of a binary operator: left operand first, and AND THEN does not
      look at the right one when the left is false. */
  function Combine(op: BinOp, t: Ty, l: Meaning, r: Meaning): Meaning
    requires BinType(op, l.ty, r.ty) == Some(t)
  {
    Meaning(t, if l.v.DivByZero? then DivByZero
               else if op.AndThen? && l.v.v == 0 then Val(0)
               else if r.v.DivByZero? then DivByZero
               else ApplyBin(op, l.ty, r.ty, l.v.v, r.v.v))
  }

  function OnValue(t: Ty, m: Meaning, f: int -> int): Meaning {
    Meaning(t, if m.v.DivByZero? then DivByZero else Val(f(m.v.v)))
  }

  /** The type and value of a parsed tree in a store; None where the language
      gives it none. */
  ghost function ValueOf(types: map<string, Ty>, env: Env, s: Store, g: G.Expr): Option<Meaning>
    requires StoreOk(env, s)
  {
    match g
    case EInt(v) =>
      if -32767 <= v <= 32767 then Some(Meaning(TInt(W16), Val(v)))
      else if -0x8000_0000 <= v <= 0x7FFF_FFFF then Some(Meaning(TInt(W32), Val(v)))
      else if -0x8000_0000_0000_0000 <= v <= 0x7FFF_FFFF_FFFF_FFFF then Some(Meaning(TInt(W64), Val(v)))
      else None
    case EChar(c) => if c as int <= 255 then Some(Meaning(TChar, Val(c as int))) else None
    case EName(x) => if x in env then Some(Meaning(env[x].ty, Val(if env[x].SVar? then s[x] else env[x].v))) else None
    case EBin(op, l, r) =>
      var a, b := ValueOf(types, env, s, l), ValueOf(types, env, s, r);
      if a.None? || b.None? then None
      else
        var t := BinType(op, a.value.ty, b.value.ty);
        if t.None? then None else Some(Combine(op, t.value, a.value, b.value))
    case EUn(op, x) =>
      var a := ValueOf(types, env, s, x);
      if a.None? then None
      else if a.value.ty.TBool? then (if op.Not? then Some(OnValue(TBool, a.value, v => 1 - v)) else None)
      else if a.value.ty.TInt? then
        var w := a.value.ty.w;
        Some(OnValue(TInt(w), a.value, v => if op.Neg? then Wrap(w, -v) else BitNot(v)))
      else None
    case ECall(f, args) =>
      if args.Arg? && args.tail.NoArgs? then
        var a := ValueOf(types, env, s, args.head);
        if a.None? then None
        else if f == "ord" then
          var t := OrdType(a.value.ty);
          if t.Some? then Some(OnValue(t.value, a.value, v => v)) else None
        else if f == "chr" && a.value.ty.TInt? then Some(OnValue(TChar, a.value, v => Low(W8, v)))
        else None
      else if f == "retype" && args.Arg? && args.tail.Arg? && args.tail.tail.NoArgs? && args.head.EName? then
        var a := ValueOf(types, env, s, args.tail.head);
        var t := args.head.name;
        if a.Some? && t in types && TyOk(types[t]) && !types[t].TBool? then
          Some(OnValue(types[t], a.value, v => Retyped(types[t], v)))
        else None
      else None
    case _ => None
  }

  /** The lowered tree has the type and value of the parsed one, and there is one
      exactly when that has a meaning. */
  ghost predicate Kept(types: map<string, Ty>, env: Env, s: Store, g: G.Expr)
    requires StoreOk(env, s)
  {
    var e, m := Lower(types, g), ValueOf(types, env, s, g);
    && (m.Some? <==> e.Some? && TypeOf(env, e.value).Some?)
    && (m.Some? ==> m.value == Meaning(TypeOf(env, e.value).value, Eval(env, s, e.value)))
  }

  lemma BinKept(types: map<string, Ty>, env: Env, s: Store, g: G.Expr)
    requires StoreOk(env, s) && g.EBin? && Kept(types, env, s, g.l) && Kept(types, env, s, g.r)
    ensures Kept(types, env, s, g)
  {
    hide ApplyBin, BinType;
  }

  lemma UnKept(types: map<string, Ty>, env: Env, s: Store, g: G.Expr)
    requires StoreOk(env, s) && g.EUn? && Kept(types, env, s, g.a)
    ensures Kept(types, env, s, g)
  {
    hide Wrap, BitNot;
  }

  lemma CallKept(types: map<string, Ty>, env: Env, s: Store, g: G.Expr)
    requires StoreOk(env, s) && g.ECall?
    requires g.args.Arg? ==> Kept(types, env, s, g.args.head)
    requires g.args.Arg? && g.args.tail.Arg? ==> Kept(types, env, s, g.args.tail.head)
    ensures Kept(types, env, s, g)
  {
    hide Low, Retyped, OrdType;
  }

  lemma {:induction false} LowerMeans(types: map<string, Ty>, env: Env, s: Store, g: G.Expr)
    requires StoreOk(env, s)
    ensures Kept(types, env, s, g)
    decreases g
  {
    match g
    case EBin(_, l, r) =>
      LowerMeans(types, env, s, l);
      LowerMeans(types, env, s, r);
      BinKept(types, env, s, g);
    case EUn(_, x) =>
      LowerMeans(types, env, s, x);
      UnKept(types, env, s, g);
    case ECall(f, args) =>
      if args.Arg? {
        LowerMeans(types, env, s, args.head);
        if args.tail.Arg? { LowerMeans(types, env, s, args.tail.head); }
      }
      CallKept(types, env, s, g);
    case _ =>
  }

  /** Every text of a condition, with whatever parentheses and leading pluses, is
      parsed to that condition; the translator accepts it exactly when it has a
      meaning, gives it the type it has, and its C evaluates to its value. */
  lemma SourceMeans(types: map<string, Ty>, env: Env, s: Store, st: CStore, ts: G.Tokens, g: G.Expr, k: G.Tokens)
    requires G.Condition(g) && D.IsCondition(g, ts, k) && P.EndsCondition(k)
    requires EnvOk(env) && StoreOk(env, s) && Mirrors(env, s, st)
    ensures G.BoolExpr(ts) == G.Got(g, k)
    ensures var c, m := Translate(types, env, g), ValueOf(types, env, s, g);
            && (c.Some? <==> m.Some?)
            && (m.Some? ==> c.value.ty == m.value.ty && Agrees(CEval(c.value.c, st), m.value.v))
  {
    hide G.BoolExpr, D.IsCondition, Lower, Eval, CEval, GenExpr, ValueOf, Agrees;
    D.ConditionExact(ts, g, k);
    LowerMeans(types, env, s, g);
    var e := Lower(types, g);
    if e.Some? {
      AcceptsTyped(env, e.value);
      if TypeOf(env, e.value).Some? { ExprPreserved(env, s, st, e.value); }
    }
  }
}
