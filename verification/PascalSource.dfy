/** The scalar part of the bootstrap subset: its abstract syntax, its typing
    rules, and its meaning as docs/bootstrap_subset.md states it. Integers are
    mathematical; every wrap-around is an explicit Wrap. */
module PascalSource {
  import opened Bits
  import opened Operators

  datatype Option<+T> = None | Some(value: T)

  type Int64 = x: int | -0x8000_0000_0000_0000 <= x < 0x8000_0000_0000_0000

  /** INTEGER, INTEGER32 and INTEGER64 (and their aliases) are TInt. */
  datatype Ty = TInt(w: Width) | TBool | TChar | TEnum(id: nat)

  predicate TyOk(t: Ty) { t != TInt(W8) }

  datatype Expr =
    | EInt(v: Int64)
    | EChar(c: Byte)
    | EName(name: string)
    | EBin(op: BinOp, a: Expr, b: Expr)
    | EUn(uop: UnOp, a: Expr)
    | EOrd(a: Expr)
    | EChr(a: Expr)
    | ERetype(to: Ty, a: Expr)

  datatype Sym = SVar(ty: Ty) | SConst(ty: Ty, v: int)

  type Env = map<string, Sym>
  type Store = map<string, int>

  predicate IsComparison(op: BinOp) {
    op.Eq? || op.Ne? || op.Lt? || op.Le? || op.Gt? || op.Ge?
  }

  predicate IsArithmetic(op: BinOp) {
    op.Add? || op.Sub? || op.Mul? || op.IDiv? || op.Mod?
  }

  /** The values a variable of type t can hold. */
  predicate InTy(t: Ty, v: int) {
    match t
    case TInt(w) => Fits(w, v)
    case TBool => 0 <= v <= 1
    case TChar => 0 <= v < 256
    case TEnum(_) => Fits(W32, v)
  }

  ghost predicate EnvOk(env: Env) {
    forall x :: x in env ==> TyOk(env[x].ty) && (env[x].SConst? ==> InTy(env[x].ty, env[x].v))
  }

  /** Every variable of env has a value of its type. */
  ghost predicate StoreOk(env: Env, s: Store) {
    forall x :: x in env && env[x].SVar? ==> x in s && InTy(env[x].ty, s[x])
  }

  // ---- typing ----

  /** The type of an integer literal or constant. */
  function IntTypeFor(v: int): Ty {
    if -32767 <= v <= 32767 then TInt(W16) else if Fits(W32, v) then TInt(W32) else TInt(W64)
  }

  function BinType(op: BinOp, l: Ty, r: Ty): Option<Ty> {
    if op.RDiv? then None
    else if op.AndThen? then
      if l.TBool? && r.TBool? then Some(TBool) else None
    else if IsComparison(op) then
      if l.TInt? && r.TInt? then Some(TBool)
      else if l.TChar? && r.TChar? then Some(TBool)
      else if l.TBool? && r.TBool? then (if op.Eq? || op.Ne? then Some(TBool) else None)
      else if l.TEnum? && l == r then Some(TBool)
      else None
    else if (op.And? || op.Or?) && l.TBool? && r.TBool? then Some(TBool)
    else if l.TInt? && r.TInt? then Some(TInt(Wider(l.w, r.w)))
    else None
  }

  function OrdType(t: Ty): Option<Ty> {
    match t
    case TInt(w) => if w == W64 then None else Some(t)
    case TChar => Some(TInt(W16))
    case TBool => Some(TInt(W16))
    case TEnum(_) => Some(TInt(W32))
  }

  /** The type of an expression; None when the subset rejects it. */
  function TypeOf(env: Env, e: Expr): Option<Ty> {
    match e
    case EInt(v) => Some(IntTypeFor(v))
    case EChar(_) => Some(TChar)
    case EName(x) => if x in env then Some(env[x].ty) else None
    case EBin(op, a, b) =>
      var l, r := TypeOf(env, a), TypeOf(env, b);
      if l.Some? && r.Some? then BinType(op, l.value, r.value) else None
    case EUn(op, a) =>
      var t := TypeOf(env, a);
      if t.Some? && (t.value.TInt? || (op.Not? && t.value.TBool?)) then t else None
    case EOrd(a) =>
      var t := TypeOf(env, a);
      if t.Some? then OrdType(t.value) else None
    case EChr(a) =>
      var t := TypeOf(env, a);
      if t.Some? && t.value.TInt? then Some(TChar) else None
    case ERetype(to, a) =>
      if TypeOf(env, a).Some? && TyOk(to) && !to.TBool? then Some(to) else None
  }

  // ---- expressions ----

  datatype Value = Val(v: int) | DivByZero

  function B(b: bool): int { if b then 1 else 0 }

  predicate Compare(op: BinOp, x: int, y: int)
    requires IsComparison(op)
  {
    match op
    case Eq => x == y case Ne => x != y
    case Lt => x < y case Le => x <= y
    case Gt => x > y case Ge => x >= y
  }

  /** An integer operation at width w: the exact result, wrapped. */
  function Arith(op: BinOp, w: Width, x: int, y: int): Value
    requires IsArithmetic(op)
  {
    match op
    case Add => Val(Wrap(w, x + y))
    case Sub => Val(Wrap(w, x - y))
    case Mul => Val(Wrap(w, x * y))
    case IDiv => if y == 0 then DivByZero else Val(Wrap(w, TruncDiv(x, y)))
    case Mod => if y == 0 then DivByZero else Val(Wrap(w, TruncMod(x, y)))
  }

  /** A binary operator on evaluated operands of types l and r. */
  function ApplyBin(op: BinOp, l: Ty, r: Ty, x: int, y: int): Value
    requires BinType(op, l, r).Some?
  {
    if op.AndThen? then Val(B(x == 1 && y == 1))
    else if IsComparison(op) then
      if l.TChar? then Val(B(Compare(op, Wrap(W8, x), Wrap(W8, y)))) else Val(B(Compare(op, x, y)))
    else if op.And? then Val(if l.TBool? then B(x == 1 && y == 1) else BitAnd(x, y))
    else if op.Or? then Val(if l.TBool? then B(x == 1 || y == 1) else BitOr(x, y))
    else Arith(op, Wider(l.w, r.w), x, y)
  }

  function ApplyUn(op: UnOp, t: Ty, x: int): int
    requires t.TInt? || (op.Not? && t.TBool?)
  {
    if t.TBool? then 1 - x
    else if op.Neg? then Wrap(t.w, -x)
    else BitNot(x)
  }

  /** RETYPE keeps the low bytes when it narrows and sign-extends when it
      widens. */
  function Retyped(to: Ty, x: int): int
    requires !to.TBool?
  {
    match to
    case TInt(w) => Wrap(w, x)
    case TChar => Low(W8, x)
    case TEnum(_) => Wrap(W32, x)
  }

  function ReadName(env: Env, s: Store, x: string): int
    requires x in env && (env[x].SVar? ==> x in s)
  {
    if env[x].SConst? then env[x].v else s[x]
  }

  /** The value of a well-typed expression. AND and OR evaluate both operands;
      AND THEN stops at a false left operand. */
  ghost function Eval(env: Env, s: Store, e: Expr): Value
    requires TypeOf(env, e).Some? && StoreOk(env, s)
  {
    match e
    case EInt(v) => Val(v)
    case EChar(c) => Val(c)
    case EName(x) => Val(ReadName(env, s, x))
    case EBin(op, a, b) =>
      var x := Eval(env, s, a);
      if x.DivByZero? then DivByZero
      else if op.AndThen? && x.v == 0 then Val(0)
      else
        var y := Eval(env, s, b);
        if y.DivByZero? then DivByZero
        else ApplyBin(op, TypeOf(env, a).value, TypeOf(env, b).value, x.v, y.v)
    case EUn(op, a) =>
      var x := Eval(env, s, a);
      if x.DivByZero? then DivByZero else Val(ApplyUn(op, TypeOf(env, a).value, x.v))
    case EOrd(a) => Eval(env, s, a)
    case EChr(a) =>
      var x := Eval(env, s, a);
      if x.DivByZero? then DivByZero else Val(Low(W8, x.v))
    case ERetype(to, a) =>
      var x := Eval(env, s, a);
      if x.DivByZero? then DivByZero else Val(Retyped(to, x.v))
  }

  // ---- statements ----

  datatype Stmt =
    | SEmpty
    | SBlock(body: Stmts)
    | SAssign(x: string, e: Expr)
    | SIf(cond: Expr, thn: Stmt, els: Option<Stmt>)
    | SWhile(cond: Expr, loop: Stmt)
    | SFor(x: string, from: Expr, to: Expr, down: bool, loop: Stmt)
    | SReturn
    | SBreak
    | SCycle

  datatype Stmts = Nil | Cons(head: Stmt, tail: Stmts)

  /** How a statement ends. TimedOut is a run cut off at the given length. */
  datatype Outcome = Normal | Broke | Cycled | Returned | Aborted | TimedOut

  datatype Result = Result(out: Outcome, s: Store)

  /** Which value a variable of type t takes when e is assigned to it. */
  predicate Assignable(t: Ty, from: Ty) {
    if t.TInt? then from.TInt? || from.TEnum? else t == from
  }

  function Stored(t: Ty, v: int): int {
    if t.TInt? then Wrap(t.w, v) else v
  }

  predicate IsVar(env: Env, x: string) { x in env && env[x].SVar? }

  predicate CondOk(env: Env, c: Expr) { TypeOf(env, c) == Some(TBool) }

  predicate ForOk(env: Env, x: string, from: Expr, to: Expr) {
    && IsVar(env, x) && env[x].ty.TInt?
    && TypeOf(env, from).Some? && Assignable(env[x].ty, TypeOf(env, from).value)
    && TypeOf(env, to).Some? && TypeOf(env, to).value.TInt?
  }

  /** The statements the subset accepts. */
  predicate StmtOk(env: Env, st: Stmt) {
    match st
    case SBlock(b) => StmtsOk(env, b)
    case SAssign(x, e) => IsVar(env, x) && TypeOf(env, e).Some? && Assignable(env[x].ty, TypeOf(env, e).value)
    case SIf(c, t, els) => CondOk(env, c) && StmtOk(env, t) && (els.Some? ==> StmtOk(env, els.value))
    case SWhile(c, b) => CondOk(env, c) && StmtOk(env, b)
    case SFor(x, from, to, down, b) => ForOk(env, x, from, to) && StmtOk(env, b)
    case _ => true
  }

  predicate StmtsOk(env: Env, b: Stmts) {
    b.Cons? ==> StmtOk(env, b.head) && StmtsOk(env, b.tail)
  }

  /** Whether cur has run past the limit. */
  predicate Past(cur: int, lim: int, down: bool) {
    if down then cur < lim else cur > lim
  }

  function Next(w: Width, cur: int, down: bool): int {
    Wrap(w, if down then cur - 1 else cur + 1)
  }

  /** When a FOR evaluates its limit: before the control variable takes its
      start value, as the dialect requires, or after. */
  datatype LimitRule = BeforeStart | AfterStart

  /** The meaning of a statement, cut off after n iterations of any one loop
      activation. Every claim about runs is made for every n. */
  ghost function Exec(rule: LimitRule, env: Env, st: Stmt, s: Store, n: nat): (r: Result)
    requires EnvOk(env) && StmtOk(env, st) && StoreOk(env, s)
    ensures StoreOk(env, r.s)
    decreases n, st, 1
  {
    match st
    case SEmpty => Result(Normal, s)
    case SBlock(b) => ExecAll(rule, env, b, s, n)
    case SAssign(x, e) =>
      var v := Eval(env, s, e);
      if v.DivByZero? then Result(Aborted, s)
      else
        EvalInTy(env, s, e);
        Result(Normal, s[x := Stored(env[x].ty, v.v)])
    case SIf(c, t, els) =>
      var v := Eval(env, s, c);
      if v.DivByZero? then Result(Aborted, s)
      else if v.v == 1 then Exec(rule, env, t, s, n)
      else if els.Some? then Exec(rule, env, els.value, s, n)
      else Result(Normal, s)
    case SWhile(c, b) => ExecWhile(rule, env, c, b, s, n)
    case SFor(x, from, to, down, b) =>
      var i := Eval(env, s, from);
      if i.DivByZero? then Result(Aborted, s)
      else
        var w := env[x].ty.w;
        var s1 := s[x := Wrap(w, i.v)];
        var l := Eval(env, if rule.BeforeStart? then s else s1, to);
        if l.DivByZero? then Result(Aborted, if rule.BeforeStart? then s else s1)
        else ExecFor(rule, env, x, Wrap(w, l.v), down, b, s1, n)
    case SReturn => Result(Returned, s)
    case SBreak => Result(Broke, s)
    case SCycle => Result(Cycled, s)
  }

  ghost function ExecAll(rule: LimitRule, env: Env, b: Stmts, s: Store, n: nat): (r: Result)
    requires EnvOk(env) && StmtsOk(env, b) && StoreOk(env, s)
    ensures StoreOk(env, r.s)
    decreases n, b, 1
  {
    match b
    case Nil => Result(Normal, s)
    case Cons(st, rest) =>
      var r := Exec(rule, env, st, s, n);
      if r.out.Normal? then ExecAll(rule, env, rest, r.s, n) else r
  }

  ghost function ExecWhile(rule: LimitRule, env: Env, c: Expr, b: Stmt, s: Store, n: nat): (r: Result)
    requires EnvOk(env) && CondOk(env, c) && StmtOk(env, b) && StoreOk(env, s)
    ensures StoreOk(env, r.s)
    decreases n, b, 2
  {
    var v := Eval(env, s, c);
    if v.DivByZero? then Result(Aborted, s)
    else if v.v == 0 then Result(Normal, s)
    else if n == 0 then Result(TimedOut, s)
    else
      var r := Exec(rule, env, b, s, n);
      match r.out
      case Normal => ExecWhile(rule, env, c, b, r.s, n - 1)
      case Cycled => ExecWhile(rule, env, c, b, r.s, n - 1)
      case Broke => Result(Normal, r.s)
      case _ => r
  }

  /** A FOR loop under way: the control variable already holds its current
      value. It stops once the body has run with the limit, so a limit at the
      extreme of the type ends the loop, and leaves the variable one step on. */
  ghost function ExecFor(rule: LimitRule, env: Env, x: string, lim: int, down: bool, b: Stmt, s: Store, n: nat): (r: Result)
    requires EnvOk(env) && IsVar(env, x) && env[x].ty.TInt? && StmtOk(env, b) && StoreOk(env, s)
    ensures StoreOk(env, r.s)
    decreases n, b, 2
  {
    if Past(s[x], lim, down) then Result(Normal, s)
    else if n == 0 then Result(TimedOut, s)
    else
      var r := Exec(rule, env, b, s, n);
      match r.out
      case Broke => Result(Normal, r.s)
      case Normal => ExecForStep(rule, env, x, lim, down, b, r.s, n)
      case Cycled => ExecForStep(rule, env, x, lim, down, b, r.s, n)
      case _ => r
  }

  ghost function ExecForStep(rule: LimitRule, env: Env, x: string, lim: int, down: bool, b: Stmt, s: Store, n: nat): (r: Result)
    requires EnvOk(env) && IsVar(env, x) && env[x].ty.TInt? && StmtOk(env, b) && StoreOk(env, s) && n > 0
    ensures StoreOk(env, r.s)
    decreases n, b, 1
  {
    var s' := s[x := Next(env[x].ty.w, s[x], down)];
    if s[x] == lim then Result(Normal, s') else ExecFor(rule, env, x, lim, down, b, s', n - 1)
  }

  // ---- well-typed expressions have values of their type ----

  lemma ApplyBinInTy(op: BinOp, l: Ty, r: Ty, x: int, y: int)
    requires BinType(op, l, r).Some? && InTy(l, x) && InTy(r, y)
    ensures var v := ApplyBin(op, l, r, x, y); v.Val? ==> InTy(BinType(op, l, r).value, v.v)
  {
    if l.TInt? && r.TInt? {
      var w := Wider(l.w, r.w);
      assert Fits(w, x) && Fits(w, y);
      BitwiseFits(w, x, y);
    }
  }

  lemma {:induction false} EvalInTy(env: Env, s: Store, e: Expr)
    requires EnvOk(env) && StoreOk(env, s) && TypeOf(env, e).Some?
    ensures TyOk(TypeOf(env, e).value)
    ensures Eval(env, s, e).Val? ==> InTy(TypeOf(env, e).value, Eval(env, s, e).v)
  {
    match e
    case EInt(_) =>
    case EChar(_) =>
    case EName(_) =>
    case EBin(op, a, b) =>
      EvalInTy(env, s, a);
      EvalInTy(env, s, b);
      var x, y := Eval(env, s, a), Eval(env, s, b);
      if x.Val? && y.Val? {
        ApplyBinInTy(op, TypeOf(env, a).value, TypeOf(env, b).value, x.v, y.v);
      }
    case EUn(op, a) =>
      EvalInTy(env, s, a);
      var t, x := TypeOf(env, a).value, Eval(env, s, a);
      if t.TInt? && x.Val? { BitwiseFits(t.w, x.v, x.v); }
    case EOrd(a) => EvalInTy(env, s, a);
    case EChr(a) => EvalInTy(env, s, a);
    case ERetype(_, a) => EvalInTy(env, s, a);
  }
}
