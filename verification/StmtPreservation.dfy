/** The C written for a statement runs as the statement does, for every
    program and every run length. */
module StmtPreservation {
  import opened Bits
  import opened Operators
  import opened PascalSource
  import opened CTarget
  import opened Emit
  import opened ExprPreservation

  function OutcomeC(o: Outcome): COutcome {
    match o
    case Normal => CNormal
    case Broke => CBroke
    case Cycled => CContinued
    case Returned => CReturned
    case Aborted => CAborted
    case TimedOut => CTimedOut
  }

  /** Both runs end the same way and in the same store, also when the process
      aborts. */
  ghost predicate Simulates(env: Env, r: Result, c: CResult) {
    c.out == OutcomeC(r.out) && Mirrors(env, r.s, c.st)
  }

  // ---- acceptance, and the temporaries of enclosing loops ----

  /** The emitter accepts exactly the statements of the subset. */
  lemma {:induction false} AcceptsStmt(env: Env, st: Stmt, k: nat)
    ensures GenStmt(env, st, k).Some? <==> StmtOk(env, st)
    decreases st, 1
  {
    match st
    case SBlock(b) => AcceptsStmts(env, b, k);
    case SAssign(_, e) => AcceptsTyped(env, e);
    case SIf(c, t, els) =>
      AcceptsTyped(env, c);
      AcceptsBody(env, t, k);
      var ct := GenBody(env, t, k);
      if els.Some? && ct.Some? { AcceptsBody(env, els.value, ct.value.count); }
    case SWhile(c, b) => AcceptsTyped(env, c); AcceptsBody(env, b, k);
    case SFor(_, from, to, _, b) =>
      AcceptsTyped(env, from);
      AcceptsTyped(env, to);
      AcceptsBody(env, b, k + 1);
    case _ =>
  }

  lemma {:induction false} AcceptsStmts(env: Env, b: Stmts, k: nat)
    ensures GenStmts(env, b, k).Some? <==> StmtsOk(env, b)
    decreases b, 1
  {
    if b.Cons? {
      AcceptsStmt(env, b.head, k);
      var c := GenStmt(env, b.head, k);
      if c.Some? { AcceptsStmts(env, b.tail, c.value.count); }
    }
  }

  lemma {:induction false} AcceptsBody(env: Env, st: Stmt, k: nat)
    ensures GenBody(env, st, k).Some? <==> StmtOk(env, st)
    decreases st, 2
  {
    if st.SBlock? { AcceptsStmts(env, st.body, k); } else { AcceptsStmt(env, st, k); }
  }

  predicate Spares(b: CStmts, j: nat) {
    !AnyAssigns(b, Lim(j)) && !AnyAssigns(b, Done(j))
  }

  /** Code written at count k never touches the temporaries of a loop numbered
      k or less, so an inner loop cannot disturb an enclosing one. */
  lemma {:induction false} SparesOuter(env: Env, st: Stmt, k: nat, j: nat)
    requires j <= k
    ensures GenStmt(env, st, k).Some? ==> Spares(GenStmt(env, st, k).value.stmts, j)
    decreases st, 1
  {
    match st
    case SBlock(b) => SparesOuterAll(env, b, k, j);
    case SIf(_, t, els) =>
      SparesOuterBody(env, t, k, j);
      var ct := GenBody(env, t, k);
      if els.Some? && ct.Some? { SparesOuterBody(env, els.value, ct.value.count, j); }
      var code := GenStmt(env, st, k);
      if code.Some? { SparesIf(code.value.stmts.head, j); }
    case SWhile(_, b) => SparesOuterBody(env, b, k, j);
    case SFor(x, from, to, down, b) =>
      SparesOuterBody(env, b, k + 1, j);
      var code := GenStmt(env, st, k);
      if code.Some? {
        var i, l, cb := GenExpr(env, from).value, GenExpr(env, to).value.c, GenBody(env, b, k + 1).value;
        SparesBlock(x, env[x].ty.w, k + 1, down, Conv(i, env[x].ty).value, l, cb.stmts, j);
        SparesSingle(code.value.stmts.head, j);
      }
    case _ =>
  }

  predicate SparesOne(c: CStmt, j: nat) {
    !Assigns(c, Lim(j)) && !Assigns(c, Done(j))
  }

  lemma SparesSingle(c: CStmt, j: nat)
    ensures Spares(Single(c), j) == SparesOne(c, j)
  {
    assert !AnyAssigns(CNil, Lim(j)) && !AnyAssigns(CNil, Done(j));
  }

  lemma SparesIf(c: CStmt, j: nat)
    requires c.CIf? && Spares(c.thn, j) && (c.els.CNil? || Spares(c.els, j))
    ensures Spares(Single(c), j)
  {
    SparesSingle(c, j);
    assert !AnyAssigns(CNil, Lim(j)) && !AnyAssigns(CNil, Done(j));
  }

  lemma SparesCons(c: CStmt, b: CStmts, j: nat)
    ensures Spares(CCons(c, b), j) == (SparesOne(c, j) && Spares(b, j))
  {
  }

  lemma SparesBlock(x: string, w: Width, k: nat, down: bool, start: CExpr, limit: CExpr, body: CStmts, j: nat)
    requires j < k && Spares(body, j)
    ensures SparesOne(ForBlock(x, w, k, down, start, limit, body), j)
  {
    var loop := ForLoop(x, w, k, down, body);
    SparesCons(loop.step.head, loop.step.tail, j);
    SparesSingle(loop.step.tail.head, j);
    var clear := CAssign(Done(k), CInt, CConst(CInt, 0));
    var save := CAssign(Lim(k), CSigned(w), CCast(CSigned(w), limit));
    SparesSingle(loop, j);
    SparesCons(clear, Single(loop), j);
    SparesCons(save, CCons(clear, Single(loop)), j);
    SparesCons(CAssign(PVar(x), CSigned(w), start), CCons(save, CCons(clear, Single(loop))), j);
  }

  lemma {:induction false} SparesOuterAll(env: Env, b: Stmts, k: nat, j: nat)
    requires j <= k
    ensures GenStmts(env, b, k).Some? ==> Spares(GenStmts(env, b, k).value.stmts, j)
    decreases b, 1
  {
    if b.Cons? {
      SparesOuter(env, b.head, k, j);
      var c := GenStmt(env, b.head, k);
      if c.Some? {
        SparesOuterAll(env, b.tail, c.value.count, j);
        var d := GenStmts(env, b.tail, c.value.count);
        if d.Some? {
          AppendAssigns(c.value.stmts, d.value.stmts, Lim(j));
          AppendAssigns(c.value.stmts, d.value.stmts, Done(j));
        }
      }
    }
  }

  lemma {:induction false} SparesOuterBody(env: Env, st: Stmt, k: nat, j: nat)
    requires j <= k
    ensures GenBody(env, st, k).Some? ==> Spares(GenBody(env, st, k).value.stmts, j)
    decreases st, 2
  {
    if st.SBlock? { SparesOuterAll(env, st.body, k, j); } else { SparesOuter(env, st, k, j); }
  }

  lemma ConsRuns(c: CStmt, b: CStmts, st: CStore, n: nat)
    ensures CExecAll(CCons(c, b), st, n) ==
            var r := CExec(c, st, n); if r.out.CNormal? then CExecAll(b, r.st, n) else r
  {
  }

  lemma SingleRuns(c: CStmt, st: CStore, n: nat)
    ensures CExecAll(Single(c), st, n) == CExec(c, st, n)
  {
  }

  // ---- the pieces of the emitted for statement ----

  /** The C state of a FOR loop numbered k under way. */
  ghost predicate LoopState(env: Env, x: string, s: Store, st: CStore, k: nat, lim: int, done: int) {
    && IsVar(env, x) && env[x].ty.TInt? && Fits(env[x].ty.w, lim)
    && Mirrors(env, s, st)
    && Lim(k) in st && st[Lim(k)] == lim
    && Done(k) in st && st[Done(k)] == done && 0 <= done <= 1
  }

  lemma LoopCondition(env: Env, x: string, s: Store, st: CStore, k: nat, lim: int, done: int, down: bool, body: CStmts)
    requires StoreOk(env, s) && LoopState(env, x, s, st, k, lim, done)
    ensures var v := CEval(ForLoop(x, env[x].ty.w, k, down, body).cond, st);
            v.CVal? && (v.v != 0 <==> done == 0 && !Past(s[x], lim, down))
  {
    var t := CSigned(env[x].ty.w);
    var v, l := CVar(PVar(x), t), CVar(Lim(k), t);
    assert CEval(v, st) == CVal(t, s[x]) && CEval(l, st) == CVal(t, lim);
    PlainOperands(t, s[x], t, lim);
    BinEval(if down then CGe else CLe, v, l, st);
    assert CEval(CBang(CVar(Done(k), CInt)), st) == Truth(done == 0);
  }

  lemma MarkRuns(w: Width, v: CExpr, l: CExpr, st: CStore, k: nat, cur: int, lim: int, n: nat)
    requires CEval(v, st) == CVal(CSigned(w), cur) && CEval(l, st) == CVal(CSigned(w), lim)
    requires Fits(w, cur) && Fits(w, lim)
    ensures CExec(CAssign(Done(k), CInt, CBin(CEq, v, l)), st, n) == CResult(CNormal, st[Done(k) := B(cur == lim)])
  {
    PlainOperands(CSigned(w), cur, CSigned(w), lim);
    BinEval(CEq, v, l, st);
    ConvertHeld(CInt, 0);
    ConvertHeld(CInt, 1);
  }

  lemma LoopStep(env: Env, x: string, s: Store, st: CStore, k: nat, lim: int, down: bool, body: CStmts, n: nat)
    requires StoreOk(env, s) && LoopState(env, x, s, st, k, lim, 0)
    ensures var w := env[x].ty.w;
            var r := CExecAll(ForLoop(x, w, k, down, body).step, st, n);
            r.out.CNormal? &&
            LoopState(env, x, s[x := Next(w, s[x], down)], r.st, k, lim, B(s[x] == lim))
  {
    var w, step := env[x].ty.w, ForLoop(x, env[x].ty.w, k, down, body).step;
    var v, l := CVar(PVar(x), CSigned(w)), CVar(Lim(k), CSigned(w));
    MarkRuns(w, v, l, st, k, s[x], lim, n);
    var st1 := st[Done(k) := B(s[x] == lim)];
    assert CEval(v, st1) == CVal(CSigned(w), s[x]);
    BumpEval(w, v, st1, s[x], down);
    ConsRuns(step.head, step.tail, st, n);
    SingleRuns(step.tail.head, st1, n);
  }

  lemma BumpEval(w: Width, v: CExpr, st: CStore, cur: int, down: bool)
    requires CEval(v, st) == CVal(CSigned(w), cur) && Fits(w, cur)
    ensures var e := CHelp(if down then PasSub else PasAdd, w, v, CConst(CInt, 1));
            CEval(e, st) == CVal(CSigned(w), Next(w, cur, down)) &&
            Convert(CSigned(w), Next(w, cur, down)) == Next(w, cur, down)
  {
    hide Wrap, CallHelper;
    WrapFits(w, cur);
    WrapFits(w, 1);
    HelperIsArith(if down then Sub else Add, w, cur, 1);
    WrapFits(w, Next(w, cur, down));
  }

  // ---- statements ----

  /** Main result for statements: started in matching stores, any statement and
      its C end the same way after any number n of iterations, in matching
      stores, and the C is never undefined. The emitted C evaluates a FOR limit
      after the start value is assigned; LimitRules relates this to the
      dialect's rule. */
  lemma {:induction false} StmtPreserved(env: Env, st: Stmt, k: nat, s: Store, cs: CStore, n: nat)
    requires EnvOk(env) && StmtOk(env, st) && StoreOk(env, s) && Mirrors(env, s, cs)
    ensures GenStmt(env, st, k).Some?
    ensures Simulates(env, Exec(AfterStart, env, st, s, n), CExecAll(GenStmt(env, st, k).value.stmts, cs, n))
    decreases n, st, 1
  {
    hide Eval, CEval, Wrap, TypeOf, Mirrors;
    AcceptsStmt(env, st, k);
    match st
    case SEmpty =>
    case SBlock(b) => StmtsPreserved(env, b, k, s, cs, n);
    case SAssign(x, e) => AssignPreserved(env, x, e, k, s, cs, n);
    case SIf(c, t, els) =>
      BodyPreserved(env, t, k, s, cs, n);
      if els.Some? { BodyPreserved(env, els.value, GenBody(env, t, k).value.count, s, cs, n); }
      IfPreserved(env, st, k, s, cs, n);
    case SWhile(c, b) =>
      ExprPreserved(env, s, cs, c);
      AcceptsBody(env, b, k);
      WhilePreserved(env, c, b, k, s, cs, n);
    case SFor(x, from, to, down, b) =>
      ForPreserved(env, x, from, to, down, b, k, s, cs, n);
    case SReturn =>
    case SBreak =>
    case SCycle =>
  }

  lemma IfPreserved(env: Env, st: Stmt, k: nat, s: Store, cs: CStore, n: nat)
    requires EnvOk(env) && st.SIf? && StmtOk(env, st) && StoreOk(env, s) && Mirrors(env, s, cs)
    requires GenStmt(env, st, k).Some?
    requires Simulates(env, Exec(AfterStart, env, st.thn, s, n), CExecAll(GenStmt(env, st, k).value.stmts.head.thn, cs, n))
    requires st.els.Some? ==> Simulates(env, Exec(AfterStart, env, st.els.value, s, n), CExecAll(GenStmt(env, st, k).value.stmts.head.els, cs, n))
    ensures Simulates(env, Exec(AfterStart, env, st, s, n), CExecAll(GenStmt(env, st, k).value.stmts, cs, n))
  {
    hide Eval, TypeOf, Mirrors, GenExpr;
    ExprPreserved(env, s, cs, st.cond);
    EvalInTy(env, s, st.cond);
    SingleRuns(GenStmt(env, st, k).value.stmts.head, cs, n);
    assert CExecAll(CNil, cs, n) == CResult(CNormal, cs);
  }

  lemma AssignPreserved(env: Env, x: string, e: Expr, k: nat, s: Store, cs: CStore, n: nat)
    requires EnvOk(env) && StmtOk(env, SAssign(x, e)) && StoreOk(env, s) && Mirrors(env, s, cs)
    ensures GenStmt(env, SAssign(x, e), k).Some?
    ensures Simulates(env, Exec(AfterStart, env, SAssign(x, e), s, n), CExecAll(GenStmt(env, SAssign(x, e), k).value.stmts, cs, n))
  {
    ExprPreserved(env, s, cs, e);
    EvalInTy(env, s, e);
    var v, t := Eval(env, s, e), env[x].ty;
    ConvPreserved(GenExpr(env, e).value, t, cs, v);
  }

  /** Storing through conv and the assignment's own conversion stores the
      Pascal value. */
  lemma ConvPreserved(c: CE, t: Ty, cs: CStore, v: Value)
    requires Assignable(t, c.ty) && Agrees(CEval(c.c, cs), v) && (v.Val? ==> InTy(c.ty, v.v))
    ensures Conv(c, t).Some?
    ensures var r := CEval(Conv(c, t).value, cs);
            match v
            case DivByZero => r.CAbort?
            case Val(x) => r.CVal? && Convert(CTypeOf(t), r.v) == Stored(t, x)
  {
    if v.Val? {
      if t.TInt? {
        ConvertHeld(CTypeOf(t), Wrap(t.w, v.v));
      } else {
        ConvertHeld(CTypeOf(t), v.v);
      }
    }
  }

  lemma {:induction false} StmtsPreserved(env: Env, b: Stmts, k: nat, s: Store, cs: CStore, n: nat)
    requires EnvOk(env) && StmtsOk(env, b) && StoreOk(env, s) && Mirrors(env, s, cs)
    ensures GenStmts(env, b, k).Some?
    ensures Simulates(env, ExecAll(AfterStart, env, b, s, n), CExecAll(GenStmts(env, b, k).value.stmts, cs, n))
    decreases n, b, 1
  {
    AcceptsStmts(env, b, k);
    if b.Cons? {
      StmtPreserved(env, b.head, k, s, cs, n);
      var c := GenStmt(env, b.head, k).value;
      var r, cr := Exec(AfterStart, env, b.head, s, n), CExecAll(c.stmts, cs, n);
      AppendExec(c.stmts, GenStmts(env, b.tail, c.count).value.stmts, cs, n);
      if r.out.Normal? { StmtsPreserved(env, b.tail, c.count, r.s, cr.st, n); }
    }
  }

  lemma {:induction false} BodyPreserved(env: Env, st: Stmt, k: nat, s: Store, cs: CStore, n: nat)
    requires EnvOk(env) && StmtOk(env, st) && StoreOk(env, s) && Mirrors(env, s, cs)
    ensures GenBody(env, st, k).Some?
    ensures Simulates(env, Exec(AfterStart, env, st, s, n), CExecAll(GenBody(env, st, k).value.stmts, cs, n))
    decreases n, st, 2
  {
    if st.SBlock? { StmtsPreserved(env, st.body, k, s, cs, n); } else { StmtPreserved(env, st, k, s, cs, n); }
  }

  /** A while loop at its condition: it aborts, is over, or is cut off. */
  lemma WhileHalts(env: Env, c: Expr, b: Stmt, ce: CExpr, body: CStmts, s: Store, cs: CStore, n: nat)
    requires EnvOk(env) && CondOk(env, c) && StmtOk(env, b) && StoreOk(env, s) && Mirrors(env, s, cs)
    requires Agrees(CEval(ce, cs), Eval(env, s, c))
    requires Eval(env, s, c).DivByZero? || Eval(env, s, c).v == 0 || n == 0
    ensures Simulates(env, ExecWhile(AfterStart, env, c, b, s, n), CExecWhile(ce, body, cs, n))
  {
    hide Eval, CEval, TypeOf, Exec, CExecAll, Mirrors;
  }

  lemma CWhileTurns(ce: CExpr, body: CStmts, cs: CStore, n: nat)
    requires n > 0 && CEval(ce, cs).CVal? && CEval(ce, cs).v != 0
    ensures var r := CExecAll(body, cs, n);
            CExecWhile(ce, body, cs, n) ==
            if r.out.CNormal? || r.out.CContinued? then CExecWhile(ce, body, r.st, n - 1)
            else if r.out.CBroke? then CResult(CNormal, r.st) else r
  {
    hide CEval, CExecAll;
  }

  lemma WhileTurns(rule: LimitRule, env: Env, c: Expr, b: Stmt, s: Store, n: nat)
    requires EnvOk(env) && CondOk(env, c) && StmtOk(env, b) && StoreOk(env, s)
    requires Eval(env, s, c).Val? && Eval(env, s, c).v != 0 && n > 0
    ensures var r, all := Exec(rule, env, b, s, n), ExecWhile(rule, env, c, b, s, n);
            all == if r.out.Normal? || r.out.Cycled? then ExecWhile(rule, env, c, b, r.s, n - 1)
                   else if r.out.Broke? then Result(Normal, r.s) else r
  {
    hide Eval, TypeOf, Exec;
  }

  lemma {:induction false} WhilePreserved(env: Env, c: Expr, b: Stmt, k: nat, s: Store, cs: CStore, n: nat)
    requires EnvOk(env) && CondOk(env, c) && StmtOk(env, b) && StoreOk(env, s) && Mirrors(env, s, cs)
    requires GenExpr(env, c).Some? && GenBody(env, b, k).Some?
    ensures Simulates(env, ExecWhile(AfterStart, env, c, b, s, n),
                      CExecWhile(GenExpr(env, c).value.c, GenBody(env, b, k).value.stmts, cs, n))
    decreases n, b, 3
  {
    hide Exec, ExecWhile, CExecAll, CExecWhile, Eval, CEval, GenExpr, GenBody, Mirrors;
    ExprPreserved(env, s, cs, c);
    var ce, body := GenExpr(env, c).value.c, GenBody(env, b, k).value.stmts;
    var v := Eval(env, s, c);
    if v.DivByZero? || v.v == 0 || n == 0 {
      WhileHalts(env, c, b, ce, body, s, cs, n);
    } else {
      BodyPreserved(env, b, k, s, cs, n);
      WhileTurns(AfterStart, env, c, b, s, n);
      CWhileTurns(ce, body, cs, n);
      var r, cr := Exec(AfterStart, env, b, s, n), CExecAll(body, cs, n);
      if r.out.Normal? || r.out.Cycled? { WhilePreserved(env, c, b, k, r.s, cr.st, n - 1); }
    }
  }

  /** One turn of a FOR loop, given its body and the turns after it. */
  lemma LoopTurn(env: Env, x: string, lim: int, down: bool, b: Stmt, k: nat, body: CStmts, s: Store, cs: CStore, n: nat)
    requires EnvOk(env) && StmtOk(env, b) && StoreOk(env, s) && LoopState(env, x, s, cs, k, lim, 0)
    requires var r, cr := Exec(AfterStart, env, b, s, n), CExecAll(body, cs, n);
             !Past(s[x], lim, down) && n > 0 ==>
             && Simulates(env, r, cr)
             && (r.out.Normal? || r.out.Cycled? ==>
                   Simulates(env, ExecForStep(AfterStart, env, x, lim, down, b, r.s, n),
                             CExecForStep(ForLoop(x, env[x].ty.w, k, down, body), cr.st, n)))
    ensures Simulates(env, ExecFor(AfterStart, env, x, lim, down, b, s, n),
                      CExecFor(ForLoop(x, env[x].ty.w, k, down, body), cs, n))
  {
    hide CEval, Exec, CExecAll, ExecForStep, CExecForStep, Mirrors;
    LoopCondition(env, x, s, cs, k, lim, 0, down, body);
  }

  /** The loop numbered k, from any iteration on. */
  lemma {:induction false} LoopPreserved(env: Env, x: string, lim: int, down: bool, b: Stmt, k: nat, s: Store, cs: CStore, n: nat)
    requires EnvOk(env) && StmtOk(env, b) && StoreOk(env, s)
    requires LoopState(env, x, s, cs, k, lim, 0) && GenBody(env, b, k).Some?
    ensures Simulates(env, ExecFor(AfterStart, env, x, lim, down, b, s, n),
                      CExecFor(ForLoop(x, env[x].ty.w, k, down, GenBody(env, b, k).value.stmts), cs, n))
    decreases n, b, 3
  {
    var body := GenBody(env, b, k).value.stmts;
    if !Past(s[x], lim, down) && n > 0 {
      BodyPreserved(env, b, k, s, cs, n);
      var r, cr := Exec(AfterStart, env, b, s, n), CExecAll(body, cs, n);
      if r.out.Normal? || r.out.Cycled? {
        SparesOuterBody(env, b, k, k);
        CFrameAll(body, cs, n, Lim(k));
        CFrameAll(body, cs, n, Done(k));
        LoopStepPreserved(env, x, lim, down, b, k, r.s, cr.st, n);
      }
    }
    LoopTurn(env, x, lim, down, b, k, body, s, cs, n);
  }

  lemma {:induction false} LoopStepPreserved(env: Env, x: string, lim: int, down: bool, b: Stmt, k: nat, s: Store, cs: CStore, n: nat)
    requires EnvOk(env) && StmtOk(env, b) && StoreOk(env, s) && n > 0
    requires LoopState(env, x, s, cs, k, lim, 0) && GenBody(env, b, k).Some?
    ensures Simulates(env, ExecForStep(AfterStart, env, x, lim, down, b, s, n),
                      CExecForStep(ForLoop(x, env[x].ty.w, k, down, GenBody(env, b, k).value.stmts), cs, n))
    decreases n, b, 2
  {
    var w, body := env[x].ty.w, GenBody(env, b, k).value.stmts;
    LoopStep(env, x, s, cs, k, lim, down, body, n);
    var loop := ForLoop(x, w, k, down, body);
    var cs1, s1 := CExecAll(loop.step, cs, n).st, s[x := Next(w, s[x], down)];
    assert CExecForStep(loop, cs, n) == CExecFor(loop, cs1, n - 1);
    if s[x] == lim {
      LoopCondition(env, x, s1, cs1, k, lim, 1, down, body);
      assert CExecFor(loop, cs1, n - 1) == CResult(CNormal, cs1);
    } else {
      LoopPreserved(env, x, lim, down, b, k, s1, cs1, n - 1);
    }
  }

  /** The block around the loop: the three assignments before it. */
  lemma BlockRuns(x: string, w: Width, k: nat, down: bool, start: CExpr, limit: CExpr, body: CStmts, cs: CStore, n: nat)
    requires CEval(start, cs).CVal?
    ensures var cs1 := cs[PVar(x) := Wrap(w, CEval(start, cs).v)];
            var l, r := CEval(limit, cs1), CExec(ForBlock(x, w, k, down, start, limit, body), cs, n);
            && (l.CAbort? ==> r == CResult(CAborted, cs1))
            && (l.CVal? ==> r == CExecFor(ForLoop(x, w, k, down, body), cs1[Lim(k) := Wrap(w, l.v)][Done(k) := 0], n))
  {
    var t := CSigned(w);
    var assign, save := CAssign(PVar(x), t, start), CAssign(Lim(k), t, CCast(t, limit));
    var clear, loop := CAssign(Done(k), CInt, CConst(CInt, 0)), ForLoop(x, w, k, down, body);
    var cs1 := cs[PVar(x) := Wrap(w, CEval(start, cs).v)];
    ConsRuns(assign, CCons(save, CCons(clear, Single(loop))), cs, n);
    ConsRuns(save, CCons(clear, Single(loop)), cs1, n);
    var l := CEval(limit, cs1);
    if l.CVal? {
      ConvertHeld(t, Wrap(w, l.v));
      ConvertHeld(CInt, 0);
      var cs2 := cs1[Lim(k) := Wrap(w, l.v)];
      ConsRuns(clear, Single(loop), cs2, n);
      SingleRuns(loop, cs2[Done(k) := 0], n);
    }
  }

  lemma BlockAborts(x: string, w: Width, k: nat, down: bool, start: CExpr, limit: CExpr, body: CStmts, cs: CStore, n: nat)
    requires CEval(start, cs).CAbort?
    ensures CExec(ForBlock(x, w, k, down, start, limit, body), cs, n) == CResult(CAborted, cs)
  {
    var block := ForBlock(x, w, k, down, start, limit, body).body;
    ConsRuns(block.head, block.tail, cs, n);
  }

  /** The C of a FOR statement. */
  ghost function ForCode(env: Env, x: string, from: Expr, to: Expr, down: bool, b: Stmt, k: nat): CStmts
    requires ForOk(env, x, from, to) && StmtOk(env, b)
  {
    AcceptsStmt(env, SFor(x, from, to, down, b), k);
    GenStmt(env, SFor(x, from, to, down, b), k).value.stmts
  }

  /** The store in which the control variable has its start value. */
  ghost function Started(env: Env, x: string, from: Expr, to: Expr, s: Store): (s1: Store)
    requires EnvOk(env) && ForOk(env, x, from, to) && StoreOk(env, s) && Eval(env, s, from).Val?
    ensures StoreOk(env, s1)
  {
    s[x := Wrap(env[x].ty.w, Eval(env, s, from).v)]
  }

  /** A FOR takes its limit from the store its rule names. */
  lemma ForMeans(rule: LimitRule, env: Env, x: string, from: Expr, to: Expr, down: bool, b: Stmt, s: Store, n: nat)
    requires EnvOk(env) && ForOk(env, x, from, to) && StmtOk(env, b) && StoreOk(env, s)
    ensures var r := Exec(rule, env, SFor(x, from, to, down, b), s, n);
            if Eval(env, s, from).DivByZero? then r == Result(Aborted, s)
            else
              var s1 := Started(env, x, from, to, s);
              var l := Eval(env, if rule.BeforeStart? then s else s1, to);
              if l.DivByZero? then r == Result(Aborted, if rule.BeforeStart? then s else s1)
              else r == ExecFor(rule, env, x, Wrap(env[x].ty.w, l.v), down, b, s1, n)
  {
    hide ExecFor, ExecWhile, ExecAll, Eval, TypeOf, Wrap;
  }

  /** What the emitted FOR does in every store: it takes its limit after the
      control variable has its start value, and then runs as the dialect's
      loop with that limit. */
  lemma {:induction false} ForEmitted(env: Env, x: string, from: Expr, to: Expr, down: bool, b: Stmt, k: nat, s: Store, cs: CStore, n: nat)
    requires EnvOk(env) && ForOk(env, x, from, to) && StmtOk(env, b) && StoreOk(env, s) && Mirrors(env, s, cs)
    ensures var cr := CExecAll(ForCode(env, x, from, to, down, b, k), cs, n);
            if Eval(env, s, from).DivByZero? then Simulates(env, Result(Aborted, s), cr)
            else
              var s1 := Started(env, x, from, to, s);
              var l := Eval(env, s1, to);
              if l.DivByZero? then Simulates(env, Result(Aborted, s1), cr)
              else Simulates(env, ExecFor(AfterStart, env, x, Wrap(env[x].ty.w, l.v), down, b, s1, n), cr)
    decreases n, b, 4
  {
    hide Eval, TypeOf, ExecFor, CExecFor, CEval;
    AcceptsStmt(env, SFor(x, from, to, down, b), k);
    AcceptsBody(env, b, k + 1);
    AcceptsTyped(env, to);
    ExprPreserved(env, s, cs, from);
    EvalInTy(env, s, from);
    var t, i := env[x].ty, Eval(env, s, from);
    var w, body := t.w, GenBody(env, b, k + 1).value.stmts;
    var start, limit := Conv(GenExpr(env, from).value, t).value, GenExpr(env, to).value.c;
    ConvPreserved(GenExpr(env, from).value, t, cs, i);
    SingleRuns(ForBlock(x, w, k + 1, down, start, limit, body), cs, n);
    if i.DivByZero? {
      BlockAborts(x, w, k + 1, down, start, limit, body, cs, n);
    } else {
      BlockRuns(x, w, k + 1, down, start, limit, body, cs, n);
      var s1, cs1 := s[x := Wrap(w, i.v)], cs[PVar(x) := Wrap(w, i.v)];
      ExprPreserved(env, s1, cs1, to);
      var l := Eval(env, s1, to);
      if l.Val? {
        LoopPreserved(env, x, Wrap(w, l.v), down, b, k + 1, s1, cs1[Lim(k + 1) := Wrap(w, l.v)][Done(k + 1) := 0], n);
      }
    }
  }

  lemma {:induction false} ForPreserved(env: Env, x: string, from: Expr, to: Expr, down: bool, b: Stmt, k: nat, s: Store, cs: CStore, n: nat)
    requires EnvOk(env) && ForOk(env, x, from, to) && StmtOk(env, b) && StoreOk(env, s) && Mirrors(env, s, cs)
    ensures Simulates(env, Exec(AfterStart, env, SFor(x, from, to, down, b), s, n),
                      CExecAll(ForCode(env, x, from, to, down, b, k), cs, n))
    decreases n, b, 5
  {
    hide Eval, TypeOf, Exec, ExecFor, CExecAll, Mirrors, StmtOk;
    ForMeans(AfterStart, env, x, from, to, down, b, s, n);
    ForEmitted(env, x, from, to, down, b, k, s, cs, n);
  }
}
