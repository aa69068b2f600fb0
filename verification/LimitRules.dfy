/** The dialect evaluates a FOR limit before the control variable takes its
    start value, the emitted C after. The two rules agree on every program in
    which no limit names its own control variable. */
module LimitRules {
  import opened Bits
  import opened PascalSource
  import opened CTarget
  import opened Emit
  import opened ExprPreservation
  import opened StmtPreservation

  predicate Mentions(e: Expr, x: string) {
    match e
    case EInt(_) => false
    case EChar(_) => false
    case EName(y) => x == y
    case EBin(_, a, b) => Mentions(a, x) || Mentions(b, x)
    case EUn(_, a) => Mentions(a, x)
    case EOrd(a) => Mentions(a, x)
    case EChr(a) => Mentions(a, x)
    case ERetype(_, a) => Mentions(a, x)
  }

  /** No FOR limit names its own control variable. */
  predicate LimitsFixed(st: Stmt) {
    match st
    case SBlock(b) => AllLimitsFixed(b)
    case SIf(_, t, els) => LimitsFixed(t) && (els.Some? ==> LimitsFixed(els.value))
    case SWhile(_, b) => LimitsFixed(b)
    case SFor(x, _, to, _, b) => !Mentions(to, x) && LimitsFixed(b)
    case _ => true
  }

  predicate AllLimitsFixed(b: Stmts) {
    b.Cons? ==> LimitsFixed(b.head) && AllLimitsFixed(b.tail)
  }

  lemma {:induction false} EvalUnmentioned(env: Env, s: Store, e: Expr, x: string, v: int)
    requires EnvOk(env) && StoreOk(env, s) && StoreOk(env, s[x := v]) && TypeOf(env, e).Some?
    requires !Mentions(e, x)
    ensures Eval(env, s[x := v], e) == Eval(env, s, e)
  {
    match e
    case EInt(_) =>
    case EChar(_) =>
    case EName(_) =>
    case EBin(_, a, b) => EvalUnmentioned(env, s, a, x, v); EvalUnmentioned(env, s, b, x, v);
    case EUn(_, a) => EvalUnmentioned(env, s, a, x, v);
    case EOrd(a) => EvalUnmentioned(env, s, a, x, v);
    case EChr(a) => EvalUnmentioned(env, s, a, x, v);
    case ERetype(_, a) => EvalUnmentioned(env, s, a, x, v);
  }

  // ---- the two rules give the same runs ----

  /** The same end, in the same store unless the process aborts: before an
      aborting limit only the code has assigned the control variable. */
  predicate SameRun(r: Result, q: Result) { r.out == q.out && (!r.out.Aborted? ==> r == q) }

  /** The C ends as r does, in the same store unless the process aborts. */
  ghost predicate Follows(env: Env, r: Result, c: CResult) {
    c.out == OutcomeC(r.out) && (!r.out.Aborted? ==> Mirrors(env, r.s, c.st))
  }

  ghost predicate Matches(rule: LimitRule, env: Env, r: Result, c: CResult) {
    Follows(env, r, c) && (rule.AfterStart? ==> Simulates(env, r, c))
  }

  lemma {:induction false} RulesAgree(env: Env, st: Stmt, s: Store, n: nat)
    requires EnvOk(env) && StmtOk(env, st) && StoreOk(env, s) && LimitsFixed(st)
    ensures SameRun(Exec(BeforeStart, env, st, s, n), Exec(AfterStart, env, st, s, n))
    decreases n, st, 1
  {
    match st
    case SBlock(b) => RulesAgreeAll(env, b, s, n);
    case SIf(_, t, els) =>
      RulesAgree(env, t, s, n);
      if els.Some? { RulesAgree(env, els.value, s, n); }
    case SWhile(c, b) => RulesAgreeWhile(env, c, b, s, n);
    case SFor(x, from, to, down, b) =>
      if Eval(env, s, from).Val? {
        var w, s1 := env[x].ty.w, Started(env, x, from, to, s);
        EvalUnmentioned(env, s, to, x, s1[x]);
        var l := Eval(env, s, to);
        if l.Val? { RulesAgreeFor(env, x, Wrap(w, l.v), down, b, s1, n); }
      }
    case _ =>
  }

  lemma {:induction false} RulesAgreeAll(env: Env, b: Stmts, s: Store, n: nat)
    requires EnvOk(env) && StmtsOk(env, b) && StoreOk(env, s) && AllLimitsFixed(b)
    ensures SameRun(ExecAll(BeforeStart, env, b, s, n), ExecAll(AfterStart, env, b, s, n))
    decreases n, b, 1
  {
    if b.Cons? {
      RulesAgree(env, b.head, s, n);
      var r := Exec(AfterStart, env, b.head, s, n);
      if r.out.Normal? { RulesAgreeAll(env, b.tail, r.s, n); }
    }
  }

  lemma {:induction false} RulesAgreeWhile(env: Env, c: Expr, b: Stmt, s: Store, n: nat)
    requires EnvOk(env) && CondOk(env, c) && StmtOk(env, b) && StoreOk(env, s) && LimitsFixed(b)
    ensures SameRun(ExecWhile(BeforeStart, env, c, b, s, n), ExecWhile(AfterStart, env, c, b, s, n))
    decreases n, b, 2
  {
    hide Eval, TypeOf, Exec, LimitsFixed;
    if n > 0 {
      RulesAgree(env, b, s, n);
      RulesAgreeWhile(env, c, b, Exec(AfterStart, env, b, s, n).s, n - 1);
    }
  }

  lemma {:induction false} RulesAgreeFor(env: Env, x: string, lim: int, down: bool, b: Stmt, s: Store, n: nat)
    requires EnvOk(env) && IsVar(env, x) && env[x].ty.TInt? && StmtOk(env, b) && StoreOk(env, s) && LimitsFixed(b)
    ensures SameRun(ExecFor(BeforeStart, env, x, lim, down, b, s, n), ExecFor(AfterStart, env, x, lim, down, b, s, n))
    decreases n, b, 2
  {
    hide Eval, TypeOf, Exec, LimitsFixed;
    if n > 0 {
      RulesAgree(env, b, s, n);
      var r := Exec(AfterStart, env, b, s, n);
      RulesAgreeFor(env, x, lim, down, b, r.s[x := Next(env[x].ty.w, r.s[x], down)], n - 1);
    }
  }

  /** Main result under either rule: the emitted C follows the dialect wherever
      no limit names its own control variable. */
  lemma StmtFaithful(rule: LimitRule, env: Env, st: Stmt, k: nat, s: Store, cs: CStore, n: nat)
    requires EnvOk(env) && StmtOk(env, st) && StoreOk(env, s) && Mirrors(env, s, cs)
    requires rule.AfterStart? || LimitsFixed(st)
    ensures GenStmt(env, st, k).Some?
    ensures Matches(rule, env, Exec(rule, env, st, s, n), CExecAll(GenStmt(env, st, k).value.stmts, cs, n))
  {
    hide Exec, CExecAll, GenStmt, Mirrors;
    StmtPreserved(env, st, k, s, cs, n);
    if LimitsFixed(st) { RulesAgree(env, st, s, n); }
  }
}
