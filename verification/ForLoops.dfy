/** What a FOR loop does, seen from outside: the values it visits, when it
    ends, and exactly when the emitted C agrees with the dialect's rule that
    the limit is evaluated before the control variable is assigned. */
module ForLoops {
  import opened Bits
  import opened PascalSource
  import opened CTarget
  import opened Emit
  import opened ExprPreservation
  import opened StmtPreservation
  import opened LimitRules

  // ---- a longer cutoff changes nothing once a run has ended ----

  lemma {:induction false} MoreTime(rule: LimitRule, env: Env, st: Stmt, s: Store, n: nat, m: nat)
    requires EnvOk(env) && StmtOk(env, st) && StoreOk(env, s) && n <= m
    requires !Exec(rule, env, st, s, n).out.TimedOut?
    ensures Exec(rule, env, st, s, m) == Exec(rule, env, st, s, n)
    decreases n, st, 1
  {
    match st
    case SBlock(b) => MoreTimeAll(rule, env, b, s, n, m);
    case SIf(c, t, els) =>
      var v := Eval(env, s, c);
      if v.Val? && v.v == 1 { MoreTime(rule, env, t, s, n, m); }
      else if v.Val? && els.Some? { MoreTime(rule, env, els.value, s, n, m); }
    case SWhile(c, b) => MoreTimeWhile(rule, env, c, b, s, n, m);
    case SFor(x, from, to, down, b) =>
      if Eval(env, s, from).Val? {
        var s1 := Started(env, x, from, to, s);
        var l := Eval(env, if rule.BeforeStart? then s else s1, to);
        if l.Val? { MoreTimeFor(rule, env, x, Wrap(env[x].ty.w, l.v), down, b, s1, n, m); }
      }
    case _ =>
  }

  lemma {:induction false} MoreTimeAll(rule: LimitRule, env: Env, b: Stmts, s: Store, n: nat, m: nat)
    requires EnvOk(env) && StmtsOk(env, b) && StoreOk(env, s) && n <= m
    requires !ExecAll(rule, env, b, s, n).out.TimedOut?
    ensures ExecAll(rule, env, b, s, m) == ExecAll(rule, env, b, s, n)
    decreases n, b, 1
  {
    if b.Cons? {
      MoreTime(rule, env, b.head, s, n, m);
      var r := Exec(rule, env, b.head, s, n);
      if r.out.Normal? { MoreTimeAll(rule, env, b.tail, r.s, n, m); }
    }
  }

  lemma WhileOver(rule: LimitRule, env: Env, c: Expr, b: Stmt, s: Store, n: nat)
    requires EnvOk(env) && CondOk(env, c) && StmtOk(env, b) && StoreOk(env, s)
    ensures var v, all := Eval(env, s, c), ExecWhile(rule, env, c, b, s, n);
            && (v.DivByZero? ==> all == Result(Aborted, s))
            && (v.Val? && v.v == 0 ==> all == Result(Normal, s))
            && (v.Val? && v.v != 0 && n == 0 ==> all.out.TimedOut?)
  {
    hide Eval, TypeOf, Exec;
  }

  lemma {:induction false} MoreTimeWhile(rule: LimitRule, env: Env, c: Expr, b: Stmt, s: Store, n: nat, m: nat)
    requires EnvOk(env) && CondOk(env, c) && StmtOk(env, b) && StoreOk(env, s) && n <= m
    requires !ExecWhile(rule, env, c, b, s, n).out.TimedOut?
    ensures ExecWhile(rule, env, c, b, s, m) == ExecWhile(rule, env, c, b, s, n)
    decreases n, b, 2
  {
    hide Eval, TypeOf, Exec, ExecWhile;
    WhileOver(rule, env, c, b, s, n);
    WhileOver(rule, env, c, b, s, m);
    var v := Eval(env, s, c);
    if v.Val? && v.v != 0 {
      WhileTurns(rule, env, c, b, s, n);
      WhileTurns(rule, env, c, b, s, m);
      MoreTime(rule, env, b, s, n, m);
      var r := Exec(rule, env, b, s, n);
      if r.out.Normal? || r.out.Cycled? { MoreTimeWhile(rule, env, c, b, r.s, n - 1, m - 1); }
    }
  }

  lemma ForUnfolds(rule: LimitRule, env: Env, x: string, lim: int, down: bool, b: Stmt, s: Store, n: nat)
    requires EnvOk(env) && IsVar(env, x) && env[x].ty.TInt? && StmtOk(env, b) && StoreOk(env, s)
    ensures var r, all := Exec(rule, env, b, s, n), ExecFor(rule, env, x, lim, down, b, s, n);
            && (Past(s[x], lim, down) ==> all == Result(Normal, s))
            && (!Past(s[x], lim, down) && n == 0 ==> all.out.TimedOut?)
            && (!Past(s[x], lim, down) && n > 0 ==>
                  all == if r.out.Normal? || r.out.Cycled? then
                           var s1 := r.s[x := Next(env[x].ty.w, r.s[x], down)];
                           if r.s[x] == lim then Result(Normal, s1) else ExecFor(rule, env, x, lim, down, b, s1, n - 1)
                         else if r.out.Broke? then Result(Normal, r.s) else r)
  {
    hide Eval, TypeOf, Exec;
  }

  lemma {:induction false} MoreTimeFor(rule: LimitRule, env: Env, x: string, lim: int, down: bool, b: Stmt, s: Store, n: nat, m: nat)
    requires EnvOk(env) && IsVar(env, x) && env[x].ty.TInt? && StmtOk(env, b) && StoreOk(env, s) && n <= m
    requires !ExecFor(rule, env, x, lim, down, b, s, n).out.TimedOut?
    ensures ExecFor(rule, env, x, lim, down, b, s, m) == ExecFor(rule, env, x, lim, down, b, s, n)
    decreases n, b, 2
  {
    hide Eval, TypeOf, Exec, ExecFor;
    ForUnfolds(rule, env, x, lim, down, b, s, n);
    ForUnfolds(rule, env, x, lim, down, b, s, m);
    if !Past(s[x], lim, down) {
      MoreTime(rule, env, b, s, n, m);
      var r := Exec(rule, env, b, s, n);
      if (r.out.Normal? || r.out.Cycled?) && r.s[x] != lim {
        MoreTimeFor(rule, env, x, lim, down, b, r.s[x := Next(env[x].ty.w, r.s[x], down)], n - 1, m - 1);
      }
    }
  }

  /** The run of st from s ends with r. */
  ghost predicate Ends(rule: LimitRule, env: Env, st: Stmt, s: Store, r: Result)
    requires EnvOk(env) && StmtOk(env, st) && StoreOk(env, s)
  {
    !r.out.TimedOut? && exists n: nat :: Exec(rule, env, st, s, n) == r
  }

  ghost predicate EndsC(code: CStmts, cs: CStore, r: CResult) {
    !r.out.CTimedOut? && exists n: nat :: CExecAll(code, cs, n) == r
  }

  /** A run has at most one end. */
  lemma EndsOnce(rule: LimitRule, env: Env, st: Stmt, s: Store, r: Result, r': Result)
    requires EnvOk(env) && StmtOk(env, st) && StoreOk(env, s)
    requires Ends(rule, env, st, s, r) && Ends(rule, env, st, s, r')
    ensures r == r'
  {
    var n: nat :| Exec(rule, env, st, s, n) == r;
    var m: nat :| Exec(rule, env, st, s, m) == r';
    if n <= m { MoreTime(rule, env, st, s, n, m); } else { MoreTime(rule, env, st, s, m, n); }
  }

  /** How a WHILE ends, said without counting its turns. */
  ghost predicate WhileEnds(rule: LimitRule, env: Env, c: Expr, b: Stmt, s: Store, r: Result)
    requires EnvOk(env) && CondOk(env, c) && StmtOk(env, b) && StoreOk(env, s)
  {
    var v := Eval(env, s, c);
    if v.DivByZero? then r == Result(Aborted, s)
    else if v.v == 0 then r == Result(Normal, s)
    else exists q :: Ends(rule, env, b, s, q) && GoesOn(rule, env, c, b, q, r)
  }

  /** After a turn that ended with q: BREAK ends the loop, CYCLE goes on like the
      end of the body, RETURN and aborting pass through. */
  ghost predicate GoesOn(rule: LimitRule, env: Env, c: Expr, b: Stmt, q: Result, r: Result)
    requires EnvOk(env) && CondOk(env, c) && StmtOk(env, b)
  {
    match q.out
    case Broke => r == Result(Normal, q.s)
    case Normal => StoreOk(env, q.s) && Ends(rule, env, SWhile(c, b), q.s, r)
    case Cycled => StoreOk(env, q.s) && Ends(rule, env, SWhile(c, b), q.s, r)
    case _ => r == q
  }

  lemma WhileIs(rule: LimitRule, env: Env, c: Expr, b: Stmt, s: Store, n: nat)
    requires EnvOk(env) && CondOk(env, c) && StmtOk(env, b) && StoreOk(env, s)
    ensures StmtOk(env, SWhile(c, b)) && Exec(rule, env, SWhile(c, b), s, n) == ExecWhile(rule, env, c, b, s, n)
  {
  }

  /** The meaning of WHILE satisfies its own law, both ways. */
  lemma WhileLaw(rule: LimitRule, env: Env, c: Expr, b: Stmt, s: Store, r: Result)
    requires EnvOk(env) && CondOk(env, c) && StmtOk(env, b) && StoreOk(env, s)
    ensures StmtOk(env, SWhile(c, b))
    ensures Ends(rule, env, SWhile(c, b), s, r) <==> WhileEnds(rule, env, c, b, s, r)
  {
    hide Exec, ExecWhile, Eval, TypeOf, Ends, WhileEnds;
    WhileIs(rule, env, c, b, s, 0);
    if Ends(rule, env, SWhile(c, b), s, r) { WhileUnrolls(rule, env, c, b, s, r); }
    if WhileEnds(rule, env, c, b, s, r) { WhileRolls(rule, env, c, b, s, r); }
  }

  lemma WhileUnrolls(rule: LimitRule, env: Env, c: Expr, b: Stmt, s: Store, r: Result)
    requires EnvOk(env) && CondOk(env, c) && StmtOk(env, b) && StoreOk(env, s) && StmtOk(env, SWhile(c, b))
    requires Ends(rule, env, SWhile(c, b), s, r)
    ensures WhileEnds(rule, env, c, b, s, r)
  {
    hide Exec, ExecWhile, Eval, TypeOf, StmtOk;
    var n: nat :| Exec(rule, env, SWhile(c, b), s, n) == r;
    WhileIs(rule, env, c, b, s, n);
    WhileOver(rule, env, c, b, s, n);
    var v := Eval(env, s, c);
    if v.Val? && v.v != 0 {
      WhileTurns(rule, env, c, b, s, n);
      var q := Exec(rule, env, b, s, n);
      if q.out.Normal? || q.out.Cycled? {
        WhileIs(rule, env, c, b, q.s, n - 1);
        assert Ends(rule, env, SWhile(c, b), q.s, r);
      }
      assert Ends(rule, env, b, s, q) && GoesOn(rule, env, c, b, q, r);
    }
  }

  lemma WhileRolls(rule: LimitRule, env: Env, c: Expr, b: Stmt, s: Store, r: Result)
    requires EnvOk(env) && CondOk(env, c) && StmtOk(env, b) && StoreOk(env, s) && StmtOk(env, SWhile(c, b))
    requires WhileEnds(rule, env, c, b, s, r)
    ensures Ends(rule, env, SWhile(c, b), s, r)
  {
    hide Exec, ExecWhile, Eval, TypeOf, StmtOk;
    var v := Eval(env, s, c);
    WhileOver(rule, env, c, b, s, 0);
    var k := 0;
    if v.Val? && v.v != 0 {
      var q :| Ends(rule, env, b, s, q) && GoesOn(rule, env, c, b, q, r);
      var m: nat :| Exec(rule, env, b, s, m) == q;
      var n := 0;
      if q.out.Normal? || q.out.Cycled? { n :| n >= 0 && Exec(rule, env, SWhile(c, b), q.s, n) == r; }
      k := Max(m, n) + 1;
      WhileRolled(rule, env, c, b, s, q, r, m, n);
    }
    WhileIs(rule, env, c, b, s, k);
    assert Exec(rule, env, SWhile(c, b), s, k) == r;
  }

  lemma WhileRolled(rule: LimitRule, env: Env, c: Expr, b: Stmt, s: Store, q: Result, r: Result, m: nat, n: nat)
    requires EnvOk(env) && CondOk(env, c) && StmtOk(env, b) && StoreOk(env, s) && StmtOk(env, SWhile(c, b))
    requires Eval(env, s, c).Val? && Eval(env, s, c).v != 0 && !q.out.TimedOut? && Exec(rule, env, b, s, m) == q
    requires q.out.Normal? || q.out.Cycled? ==> !r.out.TimedOut? && Exec(rule, env, SWhile(c, b), q.s, n) == r
    requires q.out.Broke? ==> r == Result(Normal, q.s)
    requires !q.out.Normal? && !q.out.Cycled? && !q.out.Broke? ==> r == q
    ensures ExecWhile(rule, env, c, b, s, Max(m, n) + 1) == r
  {
    hide Exec, ExecWhile, Eval, TypeOf, StmtOk;
    var k := Max(m, n) + 1;
    MoreTime(rule, env, b, s, m, k);
    WhileTurns(rule, env, c, b, s, k);
    if q.out.Normal? || q.out.Cycled? {
      WhileIs(rule, env, c, b, q.s, n);
      MoreTimeWhile(rule, env, c, b, q.s, n, k - 1);
    }
  }

  /** The program and its C both end, the same way and in the same store, or
      both run forever. */
  lemma SameEnd(rule: LimitRule, env: Env, st: Stmt, k: nat, s: Store, cs: CStore)
    requires EnvOk(env) && StmtOk(env, st) && StoreOk(env, s) && Mirrors(env, s, cs)
    requires rule.AfterStart? || LimitsFixed(st)
    ensures GenStmt(env, st, k).Some?
    ensures var code := GenStmt(env, st, k).value.stmts;
            && (forall r :: Ends(rule, env, st, s, r) ==> exists c :: EndsC(code, cs, c) && Matches(rule, env, r, c))
            && (forall c :: EndsC(code, cs, c) ==> exists r :: Ends(rule, env, st, s, r) && Matches(rule, env, r, c))
  {
    hide Exec, CExecAll, GenStmt, Mirrors, StmtOk, LimitsFixed, Ends, EndsC, Matches;
    AcceptsStmt(env, st, k);
    forall r | Ends(rule, env, st, s, r)
      ensures exists c :: EndsC(GenStmt(env, st, k).value.stmts, cs, c) && Matches(rule, env, r, c)
    {
      var c := EndCarried(rule, env, st, k, s, cs, r);
    }
    forall c | EndsC(GenStmt(env, st, k).value.stmts, cs, c)
      ensures exists r :: Ends(rule, env, st, s, r) && Matches(rule, env, r, c)
    {
      var r := EndFound(rule, env, st, k, s, cs, c);
    }
  }

  lemma EndCarried(rule: LimitRule, env: Env, st: Stmt, k: nat, s: Store, cs: CStore, r: Result) returns (c: CResult)
    requires EnvOk(env) && StmtOk(env, st) && StoreOk(env, s) && Mirrors(env, s, cs)
    requires (rule.AfterStart? || LimitsFixed(st)) && GenStmt(env, st, k).Some? && Ends(rule, env, st, s, r)
    ensures EndsC(GenStmt(env, st, k).value.stmts, cs, c) && Matches(rule, env, r, c)
  {
    hide Exec, CExecAll, GenStmt, Mirrors, StmtOk, LimitsFixed;
    var n: nat :| Exec(rule, env, st, s, n) == r;
    StmtFaithful(rule, env, st, k, s, cs, n);
    c := CExecAll(GenStmt(env, st, k).value.stmts, cs, n);
  }

  lemma EndFound(rule: LimitRule, env: Env, st: Stmt, k: nat, s: Store, cs: CStore, c: CResult) returns (r: Result)
    requires EnvOk(env) && StmtOk(env, st) && StoreOk(env, s) && Mirrors(env, s, cs)
    requires (rule.AfterStart? || LimitsFixed(st)) && GenStmt(env, st, k).Some? && EndsC(GenStmt(env, st, k).value.stmts, cs, c)
    ensures Ends(rule, env, st, s, r) && Matches(rule, env, r, c)
  {
    hide Exec, CExecAll, GenStmt, Mirrors, StmtOk, LimitsFixed;
    var n: nat :| CExecAll(GenStmt(env, st, k).value.stmts, cs, n) == c;
    StmtFaithful(rule, env, st, k, s, cs, n);
    r := Exec(rule, env, st, s, n);
  }

  // ---- the values a loop visits ----

  function Step(down: bool): int { if down then -1 else 1 }

  /** How many values lie from a to the limit. */
  function Count(a: int, lim: int, down: bool): nat {
    if Past(a, lim, down) then 0 else if down then a - lim + 1 else lim - a + 1
  }

  /** The values from a to the limit, in order. */
  function Values(a: int, lim: int, down: bool): (vs: seq<int>)
    ensures |vs| == Count(a, lim, down)
    ensures forall i :: 0 <= i < |vs| ==> vs[i] == a + i * Step(down)
  {
    seq(Count(a, lim, down), i => a + i * Step(down))
  }

  /** Run b once for each value of vs in turn, then leave x at last. BREAK
      stops at once; CYCLE goes on to the next value. */
  ghost function RunEach(rule: LimitRule, env: Env, x: string, vs: seq<int>, last: int, b: Stmt, s: Store, n: nat): (r: Result)
    requires EnvOk(env) && IsVar(env, x) && StmtOk(env, b) && StoreOk(env, s)
    requires InTy(env[x].ty, last) && forall v :: v in vs ==> InTy(env[x].ty, v)
    ensures StoreOk(env, r.s)
    decreases |vs|
  {
    if vs == [] then Result(Normal, s)
    else
      var s1 := s[x := vs[0]];
      if n == 0 then Result(TimedOut, s1)
      else
        var r := Exec(rule, env, b, s1, n);
        if r.out.Broke? then Result(Normal, r.s)
        else if !r.out.Normal? && !r.out.Cycled? then r
        else if |vs| == 1 then Result(Normal, r.s[x := last])
        else RunEach(rule, env, x, vs[1..], last, b, r.s, n - 1)
  }

  /** Whether st can assign the variable x. */
  predicate Sets(st: Stmt, x: string) {
    match st
    case SBlock(b) => AnySets(b, x)
    case SAssign(y, _) => x == y
    case SIf(_, t, els) => Sets(t, x) || (els.Some? && Sets(els.value, x))
    case SWhile(_, b) => Sets(b, x)
    case SFor(y, _, _, _, b) => x == y || Sets(b, x)
    case _ => false
  }

  predicate AnySets(b: Stmts, x: string) {
    b.Cons? && (Sets(b.head, x) || AnySets(b.tail, x))
  }

  lemma {:induction false} KeepsVar(rule: LimitRule, env: Env, st: Stmt, s: Store, n: nat, x: string)
    requires EnvOk(env) && StmtOk(env, st) && StoreOk(env, s) && IsVar(env, x) && !Sets(st, x)
    ensures Exec(rule, env, st, s, n).s[x] == s[x]
    decreases n, st, 1
  {
    match st
    case SBlock(b) => KeepsVarAll(rule, env, b, s, n, x);
    case SIf(_, t, els) =>
      KeepsVar(rule, env, t, s, n, x);
      if els.Some? { KeepsVar(rule, env, els.value, s, n, x); }
    case SWhile(c, b) => KeepsVarWhile(rule, env, c, b, s, n, x);
    case SFor(y, from, to, down, b) =>
      if Eval(env, s, from).Val? {
        var s1 := Started(env, y, from, to, s);
        var l := Eval(env, if rule.BeforeStart? then s else s1, to);
        if l.Val? { KeepsVarFor(rule, env, y, Wrap(env[y].ty.w, l.v), down, b, s1, n, x); }
      }
    case _ =>
  }

  lemma {:induction false} KeepsVarAll(rule: LimitRule, env: Env, b: Stmts, s: Store, n: nat, x: string)
    requires EnvOk(env) && StmtsOk(env, b) && StoreOk(env, s) && IsVar(env, x) && !AnySets(b, x)
    ensures ExecAll(rule, env, b, s, n).s[x] == s[x]
    decreases n, b, 1
  {
    if b.Cons? {
      KeepsVar(rule, env, b.head, s, n, x);
      var r := Exec(rule, env, b.head, s, n);
      if r.out.Normal? { KeepsVarAll(rule, env, b.tail, r.s, n, x); }
    }
  }

  lemma {:induction false} KeepsVarWhile(rule: LimitRule, env: Env, c: Expr, b: Stmt, s: Store, n: nat, x: string)
    requires EnvOk(env) && CondOk(env, c) && StmtOk(env, b) && StoreOk(env, s) && IsVar(env, x) && !Sets(b, x)
    ensures ExecWhile(rule, env, c, b, s, n).s[x] == s[x]
    decreases n, b, 2
  {
    if n > 0 {
      KeepsVar(rule, env, b, s, n, x);
      KeepsVarWhile(rule, env, c, b, Exec(rule, env, b, s, n).s, n - 1, x);
    }
  }

  lemma {:induction false} KeepsVarFor(rule: LimitRule, env: Env, y: string, lim: int, down: bool, b: Stmt, s: Store, n: nat, x: string)
    requires EnvOk(env) && IsVar(env, y) && env[y].ty.TInt? && StmtOk(env, b) && StoreOk(env, s)
    requires IsVar(env, x) && !Sets(b, x) && x != y
    ensures ExecFor(rule, env, y, lim, down, b, s, n).s[x] == s[x]
    decreases n, b, 2
  {
    hide Eval, TypeOf, Exec, Wrap;
    if n > 0 {
      KeepsVar(rule, env, b, s, n, x);
      var r := Exec(rule, env, b, s, n);
      KeepsVarFor(rule, env, y, lim, down, b, r.s[y := Next(env[y].ty.w, r.s[y], down)], n - 1, x);
    }
  }

  /** A body that leaves the control variable alone runs once for each value
      from start to limit, in order; a limit at the extreme of the type is no
      exception, and the variable ends one step past the limit. */
  lemma {:induction false} ForRunsEach(rule: LimitRule, env: Env, x: string, lim: int, down: bool, b: Stmt, s: Store, n: nat)
    requires EnvOk(env) && IsVar(env, x) && env[x].ty.TInt? && StmtOk(env, b) && StoreOk(env, s)
    requires Fits(env[x].ty.w, lim) && !Sets(b, x)
    ensures ExecFor(rule, env, x, lim, down, b, s, n) ==
            RunEach(rule, env, x, Values(s[x], lim, down), Next(env[x].ty.w, lim, down), b, s, n)
    decreases Count(s[x], lim, down)
  {
    hide ExecFor, Exec, RunEach, Wrap, StmtOk, Sets, Values, Count;
    ValuesHead(env, x, s, lim, down);
    KeepsVar(rule, env, b, s, n, x);
    var r := Exec(rule, env, b, s, n);
    if !Past(s[x], lim, down) && n > 0 && (r.out.Normal? || r.out.Cycled?) && s[x] != lim {
      ForGoesOn(rule, env, x, lim, down, b, s, n);
      ForRunsEach(rule, env, x, lim, down, b, r.s[x := s[x] + Step(down)], n - 1);
    } else {
      ForLastTurn(rule, env, x, lim, down, b, s, n);
    }
  }

  lemma ValuesHead(env: Env, x: string, s: Store, lim: int, down: bool)
    requires IsVar(env, x) && StoreOk(env, s)
    ensures var vs := Values(s[x], lim, down); if Past(s[x], lim, down) then vs == [] else vs != [] && vs[0] == s[x] && s[x := vs[0]] == s
    ensures !Past(s[x], lim, down) && s[x] != lim ==>
              Count(s[x] + Step(down), lim, down) < Count(s[x], lim, down) && |Values(s[x], lim, down)| > 1
  {
  }

  /** A turn that is not the last, on both sides. */
  lemma ForGoesOn(rule: LimitRule, env: Env, x: string, lim: int, down: bool, b: Stmt, s: Store, n: nat)
    requires EnvOk(env) && IsVar(env, x) && env[x].ty.TInt? && StmtOk(env, b) && StoreOk(env, s)
    requires Fits(env[x].ty.w, lim) && !Past(s[x], lim, down) && s[x] != lim && n > 0
    requires Exec(rule, env, b, s, n).out.Normal? || Exec(rule, env, b, s, n).out.Cycled?
    requires Exec(rule, env, b, s, n).s[x] == s[x]
    ensures InTy(env[x].ty, s[x] + Step(down))
    ensures var v, r, last := s[x] + Step(down), Exec(rule, env, b, s, n), Next(env[x].ty.w, lim, down);
            && ExecFor(rule, env, x, lim, down, b, s, n) == ExecFor(rule, env, x, lim, down, b, r.s[x := v], n - 1)
            && (forall u :: u in Values(s[x], lim, down) || u in Values(v, lim, down) ==> InTy(env[x].ty, u)) && InTy(env[x].ty, last)
            && RunEach(rule, env, x, Values(s[x], lim, down), last, b, s, n) ==
               RunEach(rule, env, x, Values(v, lim, down), last, b, r.s[x := v], n - 1)
  {
    hide ExecFor, Exec, RunEach, Wrap, StmtOk, Values, Count;
    var v, r, vs := s[x] + Step(down), Exec(rule, env, b, s, n), Values(s[x], lim, down);
    ForTurns(rule, env, x, lim, down, b, s, n);
    ValuesHead(env, x, s, lim, down);
    ValuesTail(s[x], lim, down);
    ValuesFit(env, x, s, lim, down);
    assert forall u :: u in vs[1..] ==> u in vs;
    RunEachOverwrites(rule, env, x, vs[1..], Next(env[x].ty.w, lim, down), b, r.s, v, n - 1);
    RunEachTurns(rule, env, x, vs, Next(env[x].ty.w, lim, down), b, s, n);
  }

  lemma ValuesTail(a: int, lim: int, down: bool)
    requires !Past(a, lim, down) && a != lim
    ensures Values(a, lim, down)[1..] == Values(a + Step(down), lim, down)
  {
  }

  lemma RunEachTurns(rule: LimitRule, env: Env, x: string, vs: seq<int>, last: int, b: Stmt, s: Store, n: nat)
    requires EnvOk(env) && IsVar(env, x) && StmtOk(env, b) && StoreOk(env, s)
    requires InTy(env[x].ty, last) && forall v :: v in vs ==> InTy(env[x].ty, v)
    requires |vs| > 1 && n > 0 && s[x := vs[0]] == s
    requires Exec(rule, env, b, s, n).out.Normal? || Exec(rule, env, b, s, n).out.Cycled?
    ensures RunEach(rule, env, x, vs, last, b, s, n) == RunEach(rule, env, x, vs[1..], last, b, Exec(rule, env, b, s, n).s, n - 1)
  {
  }

  lemma ForLastTurn(rule: LimitRule, env: Env, x: string, lim: int, down: bool, b: Stmt, s: Store, n: nat)
    requires EnvOk(env) && IsVar(env, x) && env[x].ty.TInt? && StmtOk(env, b) && StoreOk(env, s)
    requires Fits(env[x].ty.w, lim) && Exec(rule, env, b, s, n).s[x] == s[x]
    requires Past(s[x], lim, down) || (s[x := Values(s[x], lim, down)[0]] == s)
    requires
      var r := Exec(rule, env, b, s, n);
      Past(s[x], lim, down) || n == 0 || s[x] == lim || (!r.out.Normal? && !r.out.Cycled?)
    ensures ExecFor(rule, env, x, lim, down, b, s, n) ==
            RunEach(rule, env, x, Values(s[x], lim, down), Next(env[x].ty.w, lim, down), b, s, n)
  {
  }

  lemma ForTurns(rule: LimitRule, env: Env, x: string, lim: int, down: bool, b: Stmt, s: Store, n: nat)
    requires EnvOk(env) && IsVar(env, x) && env[x].ty.TInt? && StmtOk(env, b) && StoreOk(env, s)
    requires Fits(env[x].ty.w, lim) && !Past(s[x], lim, down) && s[x] != lim && n > 0
    requires Exec(rule, env, b, s, n).out.Normal? || Exec(rule, env, b, s, n).out.Cycled?
    requires Exec(rule, env, b, s, n).s[x] == s[x]
    ensures InTy(env[x].ty, s[x] + Step(down))
    ensures ExecFor(rule, env, x, lim, down, b, s, n) ==
            ExecFor(rule, env, x, lim, down, b, Exec(rule, env, b, s, n).s[x := s[x] + Step(down)], n - 1)
  {
    WrapFits(env[x].ty.w, s[x] + Step(down));
  }

  /** The value x holds before a non-empty list of values does not matter. */
  lemma RunEachOverwrites(rule: LimitRule, env: Env, x: string, vs: seq<int>, last: int, b: Stmt, s: Store, v: int, n: nat)
    requires EnvOk(env) && IsVar(env, x) && StmtOk(env, b) && StoreOk(env, s) && InTy(env[x].ty, v)
    requires InTy(env[x].ty, last) && vs != [] && forall v :: v in vs ==> InTy(env[x].ty, v)
    ensures RunEach(rule, env, x, vs, last, b, s[x := v], n) == RunEach(rule, env, x, vs, last, b, s, n)
  {
    assert s[x := v][x := vs[0]] == s[x := vs[0]];
  }

  /** The emitted FOR visits exactly the values from start to limit, whatever
      the limit names; a limit that does not name the control variable is the
      one the dialect takes. */
  lemma EmittedForRunsEach(env: Env, x: string, from: Expr, to: Expr, down: bool, b: Stmt, k: nat, s: Store, cs: CStore, n: nat)
    requires EnvOk(env) && ForOk(env, x, from, to) && StmtOk(env, b) && StoreOk(env, s) && Mirrors(env, s, cs)
    requires Eval(env, s, from).Val? && Eval(env, Started(env, x, from, to, s), to).Val? && !Sets(b, x)
    ensures var w, s1 := env[x].ty.w, Started(env, x, from, to, s);
            var lim := Wrap(w, Eval(env, s1, to).v);
            Simulates(env, RunEach(AfterStart, env, x, Values(s1[x], lim, down), Next(w, lim, down), b, s1, n),
                      CExecAll(ForCode(env, x, from, to, down, b, k), cs, n))
    ensures !Mentions(to, x) ==> Eval(env, Started(env, x, from, to, s), to) == Eval(env, s, to)
  {
    hide Eval, TypeOf, Wrap, Mirrors, ExecFor, RunEach, Exec, CExecAll, Values;
    var s1 := Started(env, x, from, to, s);
    ForEmitted(env, x, from, to, down, b, k, s, cs, n);
    ForRunsEach(AfterStart, env, x, Wrap(env[x].ty.w, Eval(env, s1, to).v), down, b, s1, n);
    if !Mentions(to, x) { EvalUnmentioned(env, s, to, x, s1[x]); }
  }

  lemma RunEachUnfolds(rule: LimitRule, env: Env, x: string, vs: seq<int>, last: int, b: Stmt, s: Store, n: nat)
    requires EnvOk(env) && IsVar(env, x) && StmtOk(env, b) && StoreOk(env, s)
    requires InTy(env[x].ty, last) && forall v :: v in vs ==> InTy(env[x].ty, v)
    requires vs != [] && StoreOk(env, s[x := vs[0]])
    ensures var all := RunEach(rule, env, x, vs, last, b, s, n);
            if n == 0 then all.out.TimedOut?
            else
              var r := Exec(rule, env, b, s[x := vs[0]], n);
              all == if r.out.Broke? then Result(Normal, r.s)
                     else if !r.out.Normal? && !r.out.Cycled? then r
                     else if |vs| == 1 then Result(Normal, r.s[x := last])
                     else RunEach(rule, env, x, vs[1..], last, b, r.s, n - 1)
  {
    hide Exec, Eval, StmtOk;
  }

  lemma {:induction false} RunEachMore(rule: LimitRule, env: Env, x: string, vs: seq<int>, last: int, b: Stmt, s: Store, n: nat, m: nat)
    requires EnvOk(env) && IsVar(env, x) && StmtOk(env, b) && StoreOk(env, s)
    requires InTy(env[x].ty, last) && forall v :: v in vs ==> InTy(env[x].ty, v)
    requires n <= m && !RunEach(rule, env, x, vs, last, b, s, n).out.TimedOut?
    ensures RunEach(rule, env, x, vs, last, b, s, m) == RunEach(rule, env, x, vs, last, b, s, n)
    decreases |vs|
  {
    if vs != [] {
      hide Exec, RunEach, StmtOk;
      RunEachUnfolds(rule, env, x, vs, last, b, s, n);
      RunEachUnfolds(rule, env, x, vs, last, b, s, m);
      var s1 := s[x := vs[0]];
      MoreTime(rule, env, b, s1, n, m);
      var r := Exec(rule, env, b, s1, n);
      if (r.out.Normal? || r.out.Cycled?) && |vs| > 1 { RunEachMore(rule, env, x, vs[1..], last, b, r.s, n - 1, m - 1); }
    }
  }

  /** The body ends from every store in which x holds one of vs, after however
      many iterations of its own. */
  ghost predicate Terminates(rule: LimitRule, env: Env, b: Stmt, x: string, vs: seq<int>)
    requires EnvOk(env) && IsVar(env, x) && StmtOk(env, b)
  {
    forall t :: StoreOk(env, t) && t[x] in vs ==> EndsFrom(rule, env, b, t)
  }

  ghost predicate EndsFrom(rule: LimitRule, env: Env, b: Stmt, t: Store)
    requires EnvOk(env) && StmtOk(env, b) && StoreOk(env, t)
  {
    exists m: nat :: !Exec(rule, env, b, t, m).out.TimedOut?
  }

  /** No run of the body from such a store leaves the loop. */
  ghost predicate StaysIn(rule: LimitRule, env: Env, b: Stmt, x: string, vs: seq<int>)
    requires EnvOk(env) && IsVar(env, x) && StmtOk(env, b)
  {
    forall t, m: nat :: StoreOk(env, t) && t[x] in vs ==>
      var o := Exec(rule, env, b, t, m).out; o.Normal? || o.Cycled? || o.TimedOut?
  }

  lemma FewerValues(rule: LimitRule, env: Env, b: Stmt, x: string, vs: seq<int>)
    requires EnvOk(env) && IsVar(env, x) && StmtOk(env, b) && vs != []
    ensures Terminates(rule, env, b, x, vs) ==> Terminates(rule, env, b, x, vs[1..])
    ensures StaysIn(rule, env, b, x, vs) ==> StaysIn(rule, env, b, x, vs[1..])
  {
    hide Exec, StmtOk, StoreOk, EndsFrom;
    assert forall v :: v in vs[1..] ==> v in vs;
  }

  function Max(a: nat, b: nat): nat { if a < b then b else a }

  /** If the body always ends, so does the loop, wherever its limit lies. */
  lemma {:induction false} RunEachEnds(rule: LimitRule, env: Env, x: string, vs: seq<int>, last: int, b: Stmt, s: Store) returns (n: nat)
    requires EnvOk(env) && IsVar(env, x) && StmtOk(env, b) && StoreOk(env, s)
    requires InTy(env[x].ty, last) && forall v :: v in vs ==> InTy(env[x].ty, v)
    requires Terminates(rule, env, b, x, vs)
    ensures !RunEach(rule, env, x, vs, last, b, s, n).out.TimedOut?
    decreases |vs|
  {
    hide Exec, RunEach, StmtOk, StoreOk, Terminates;
    n := 0;
    if vs == [] {
      RunEachNothing(rule, env, x, last, b, s);
    } else {
      assert StoreOk(env, s[x := vs[0]]) by { StartsTyped(env, x, vs[0], s); }
      var m := BodyEnds(rule, env, b, x, vs, s[x := vs[0]]);
      FewerValues(rule, env, b, x, vs);
      var r := Exec(rule, env, b, s[x := vs[0]], m);
      var k := 0;
      if |vs| > 1 { k := RunEachEnds(rule, env, x, vs[1..], last, b, r.s); }
      n := Max(m, k) + 1;
      JoinTurns(rule, env, x, vs, last, b, s, m, k);
    }
  }

  lemma StartsTyped(env: Env, x: string, v: int, s: Store)
    requires IsVar(env, x) && StoreOk(env, s) && InTy(env[x].ty, v)
    ensures StoreOk(env, s[x := v])
  {
  }

  lemma RunEachNothing(rule: LimitRule, env: Env, x: string, last: int, b: Stmt, s: Store)
    requires EnvOk(env) && IsVar(env, x) && StmtOk(env, b) && StoreOk(env, s) && InTy(env[x].ty, last)
    ensures RunEach(rule, env, x, [], last, b, s, 0) == Result(Normal, s)
  {
  }

  lemma BodyEnds(rule: LimitRule, env: Env, b: Stmt, x: string, vs: seq<int>, t: Store) returns (m: nat)
    requires EnvOk(env) && IsVar(env, x) && StmtOk(env, b) && StoreOk(env, t) && t[x] in vs && Terminates(rule, env, b, x, vs)
    ensures !Exec(rule, env, b, t, m).out.TimedOut?
  {
    hide Exec, StmtOk, StoreOk;
    assert EndsFrom(rule, env, b, t);
    m :| !Exec(rule, env, b, t, m).out.TimedOut?;
  }

  /** A first turn that ends within m and later turns that end within k. */
  lemma JoinTurns(rule: LimitRule, env: Env, x: string, vs: seq<int>, last: int, b: Stmt, s: Store, m: nat, k: nat)
    requires EnvOk(env) && IsVar(env, x) && StmtOk(env, b) && StoreOk(env, s)
    requires InTy(env[x].ty, last) && forall v :: v in vs ==> InTy(env[x].ty, v)
    requires vs != [] && StoreOk(env, s[x := vs[0]]) && !Exec(rule, env, b, s[x := vs[0]], m).out.TimedOut?
    requires |vs| > 1 ==> !RunEach(rule, env, x, vs[1..], last, b, Exec(rule, env, b, s[x := vs[0]], m).s, k).out.TimedOut?
    ensures !RunEach(rule, env, x, vs, last, b, s, Max(m, k) + 1).out.TimedOut?
  {
    hide Exec, RunEach, StmtOk, StoreOk;
    var n := Max(m, k) + 1;
    MoreTime(rule, env, b, s[x := vs[0]], m, n);
    if |vs| > 1 { RunEachMore(rule, env, x, vs[1..], last, b, Exec(rule, env, b, s[x := vs[0]], m).s, k, n - 1); }
    RunEachUnfolds(rule, env, x, vs, last, b, s, n);
  }

  /** When no turn leaves the loop early, a loop that ends does so with the
      variable at last, or untouched when there was nothing to visit. */
  lemma {:induction false} RunEachLeaves(rule: LimitRule, env: Env, x: string, vs: seq<int>, last: int, b: Stmt, s: Store, n: nat)
    requires EnvOk(env) && IsVar(env, x) && StmtOk(env, b) && StoreOk(env, s)
    requires InTy(env[x].ty, last) && forall v :: v in vs ==> InTy(env[x].ty, v)
    requires StaysIn(rule, env, b, x, vs) && !RunEach(rule, env, x, vs, last, b, s, n).out.TimedOut?
    ensures var r := RunEach(rule, env, x, vs, last, b, s, n);
            r.out.Normal? && (if vs == [] then r.s == s else r.s[x] == last)
    decreases |vs|
  {
    if vs != [] {
      hide Exec, RunEach, StmtOk;
      RunEachUnfolds(rule, env, x, vs, last, b, s, n);
      FewerValues(rule, env, b, x, vs);
      var r := Exec(rule, env, b, s[x := vs[0]], n);
      if |vs| > 1 && (r.out.Normal? || r.out.Cycled?) { RunEachLeaves(rule, env, x, vs[1..], last, b, r.s, n - 1); }
    }
  }

  /** The values the emitted loop visits. */
  ghost function Visited(env: Env, x: string, from: Expr, to: Expr, down: bool, s: Store): seq<int>
    requires EnvOk(env) && ForOk(env, x, from, to) && StoreOk(env, s)
    requires Eval(env, s, from).Val? && Eval(env, Started(env, x, from, to, s), to).Val?
  {
    var s1 := Started(env, x, from, to, s);
    Values(s1[x], Wrap(env[x].ty.w, Eval(env, s1, to).v), down)
  }

  /** Main result for the emitted loop: with a body that ends and does not
      assign the control variable it ends, even at the extreme of the type, and
      unless a turn leaves it early the variable ends one wrapped step past the
      limit, or at its start value when the range is empty. */
  lemma EmittedForEnds(env: Env, x: string, from: Expr, to: Expr, down: bool, b: Stmt, k: nat, s: Store, cs: CStore) returns (n: nat)
    requires EnvOk(env) && ForOk(env, x, from, to) && StmtOk(env, b) && StoreOk(env, s) && Mirrors(env, s, cs)
    requires Eval(env, s, from).Val? && Eval(env, Started(env, x, from, to, s), to).Val?
    requires !Sets(b, x) && Terminates(AfterStart, env, b, x, Visited(env, x, from, to, down, s))
    ensures var c := CExecAll(ForCode(env, x, from, to, down, b, k), cs, n);
            var w, a := env[x].ty.w, Started(env, x, from, to, s)[x];
            var lim := Wrap(w, Eval(env, Started(env, x, from, to, s), to).v);
            && !c.out.CTimedOut?
            && (StaysIn(AfterStart, env, b, x, Visited(env, x, from, to, down, s)) ==>
                  c.out.CNormal? && PVar(x) in c.st && c.st[PVar(x)] == if Past(a, lim, down) then a else Next(w, lim, down))
  {
    hide Eval, TypeOf, Wrap, ExecFor, RunEach, Exec, CExecAll, Terminates, StaysIn, Started, StmtOk;
    var w, s1 := env[x].ty.w, Started(env, x, from, to, s);
    var lim := Wrap(w, Eval(env, s1, to).v);
    var vs, last := Values(s1[x], lim, down), Next(w, lim, down);
    ValuesFit(env, x, s1, lim, down);
    n := RunEachEnds(AfterStart, env, x, vs, last, b, s1);
    EmittedForRunsEach(env, x, from, to, down, b, k, s, cs, n);
    if StaysIn(AfterStart, env, b, x, vs) { RunEachLeaves(AfterStart, env, x, vs, last, b, s1, n); }
  }

  lemma ValuesFit(env: Env, x: string, s: Store, lim: int, down: bool)
    requires IsVar(env, x) && env[x].ty.TInt? && StoreOk(env, s) && Fits(env[x].ty.w, lim)
    ensures forall v :: v in Values(s[x], lim, down) ==> InTy(env[x].ty, v)
    ensures InTy(env[x].ty, Next(env[x].ty.w, lim, down))
  {
  }

  // ---- when the emitted loop takes the dialect's limit ----

  /** The limit has the same effect whether it is evaluated before the control
      variable takes its start value, as the dialect requires, or after, as the
      emitted C does: the same value, or one that makes the range empty too. */
  ghost predicate LimitAgrees(env: Env, x: string, from: Expr, to: Expr, down: bool, s: Store)
    requires EnvOk(env) && ForOk(env, x, from, to) && StoreOk(env, s)
  {
    Eval(env, s, from).Val? ==>
      var w, s1 := env[x].ty.w, Started(env, x, from, to, s);
      var a, before, after := s1[x], Eval(env, s, to), Eval(env, s1, to);
      match (before, after)
      case (Val(l), Val(m)) => Wrap(w, l) == Wrap(w, m) || (Past(a, Wrap(w, l), down) && Past(a, Wrap(w, m), down))
      case (DivByZero, DivByZero) => true
      case _ => false
  }

  /** A FOR with an empty body is over after exactly its number of turns. */
  lemma {:induction false} EmptyLoop(rule: LimitRule, env: Env, x: string, lim: int, down: bool, s: Store, n: nat)
    requires EnvOk(env) && IsVar(env, x) && env[x].ty.TInt? && StoreOk(env, s) && Fits(env[x].ty.w, lim)
    ensures var r, m := ExecFor(rule, env, x, lim, down, SEmpty, s, n), Count(s[x], lim, down);
            && r.out == (if n < m then TimedOut else Normal)
            && (m > 0 && n >= m ==> r.s[x] == Next(env[x].ty.w, lim, down))
    decreases Count(s[x], lim, down)
  {
    hide ExecFor, Eval, TypeOf;
    ForUnfolds(rule, env, x, lim, down, SEmpty, s, n);
    var w := env[x].ty.w;
    if !Past(s[x], lim, down) && n > 0 && s[x] != lim {
      WrapFits(w, s[x] + Step(down));
      EmptyLoop(rule, env, x, lim, down, s[x := Next(w, s[x], down)], n - 1);
    }
  }

  /** The FOR and its C run alike from these stores. */
  ghost predicate Alike(env: Env, x: string, from: Expr, to: Expr, down: bool, b: Stmt, k: nat, s: Store, cs: CStore, n: nat)
    requires EnvOk(env) && ForOk(env, x, from, to) && StmtOk(env, b) && StoreOk(env, s)
  {
    Follows(env, Exec(BeforeStart, env, SFor(x, from, to, down, b), s, n), CExecAll(ForCode(env, x, from, to, down, b, k), cs, n))
  }

  /** Every body runs as the dialect says, for every run length. */
  ghost predicate LoopFaithful(env: Env, x: string, from: Expr, to: Expr, down: bool, k: nat, s: Store, cs: CStore)
    requires EnvOk(env) && ForOk(env, x, from, to) && StoreOk(env, s)
  {
    forall b, n: nat :: StmtOk(env, b) && LimitsFixed(b) ==> Alike(env, x, from, to, down, b, k, s, cs, n)
  }

  /** A loop that starts past its limit does nothing. */
  lemma EmptyRange(rule: LimitRule, env: Env, x: string, lim: int, down: bool, b: Stmt, s: Store, n: nat)
    requires EnvOk(env) && IsVar(env, x) && env[x].ty.TInt? && StmtOk(env, b) && StoreOk(env, s)
    requires Past(s[x], lim, down)
    ensures ExecFor(rule, env, x, lim, down, b, s, n) == Result(Normal, s)
  {
  }

  lemma FaithfulIfAgrees(env: Env, x: string, from: Expr, to: Expr, down: bool, k: nat, s: Store, cs: CStore, b: Stmt, n: nat)
    requires EnvOk(env) && ForOk(env, x, from, to) && StoreOk(env, s) && Mirrors(env, s, cs)
    requires LimitAgrees(env, x, from, to, down, s) && StmtOk(env, b) && LimitsFixed(b)
    ensures Alike(env, x, from, to, down, b, k, s, cs, n)
  {
    hide Exec, ExecFor, CExecAll, Eval, TypeOf, Wrap, Mirrors, Started;
    ForMeans(BeforeStart, env, x, from, to, down, b, s, n);
    ForEmitted(env, x, from, to, down, b, k, s, cs, n);
    if Eval(env, s, from).Val? && Eval(env, s, to).Val? {
      var w, s1 := env[x].ty.w, Started(env, x, from, to, s);
      var l, m := Wrap(w, Eval(env, s, to).v), Wrap(w, Eval(env, s1, to).v);
      if l != m {
        EmptyRange(BeforeStart, env, x, l, down, b, s1, n);
        EmptyRange(BeforeStart, env, x, m, down, b, s1, n);
      }
      RulesAgreeFor(env, x, m, down, b, s1, n);
    }
  }

  lemma UnfaithfulAbort(env: Env, x: string, from: Expr, to: Expr, down: bool, k: nat, s: Store, cs: CStore)
    requires EnvOk(env) && ForOk(env, x, from, to) && StoreOk(env, s) && Mirrors(env, s, cs)
    requires Eval(env, s, from).Val?
    requires Eval(env, s, to).Val? != Eval(env, Started(env, x, from, to, s), to).Val?
    ensures !Alike(env, x, from, to, down, SEmpty, k, s, cs, 0)
  {
    hide Exec, ExecFor, CExecAll, Eval, TypeOf, Wrap, Mirrors, Started;
    ForMeans(BeforeStart, env, x, from, to, down, SEmpty, s, 0);
    ForEmitted(env, x, from, to, down, SEmpty, k, s, cs, 0);
    if Eval(env, s, to).Val? {
      NotAborted(BeforeStart, env, x, Wrap(env[x].ty.w, Eval(env, s, to).v), down, Started(env, x, from, to, s), 0);
    } else {
      var s1 := Started(env, x, from, to, s);
      NotAborted(AfterStart, env, x, Wrap(env[x].ty.w, Eval(env, s1, to).v), down, s1, 0);
    }
  }

  lemma NotAborted(rule: LimitRule, env: Env, x: string, lim: int, down: bool, s: Store, n: nat)
    requires EnvOk(env) && IsVar(env, x) && env[x].ty.TInt? && StoreOk(env, s) && Fits(env[x].ty.w, lim)
    ensures !ExecFor(rule, env, x, lim, down, SEmpty, s, n).out.Aborted?
  {
    EmptyLoop(rule, env, x, lim, down, s, n);
  }

  /** Limits that make different numbers of turns tell the two loops apart. */
  lemma UnfaithfulLimit(env: Env, x: string, from: Expr, to: Expr, down: bool, k: nat, s: Store, cs: CStore, l: int, m: int, n: nat)
    requires EnvOk(env) && ForOk(env, x, from, to) && StoreOk(env, s) && Mirrors(env, s, cs)
    requires Eval(env, s, from).Val? && Eval(env, s, to).Val? && Eval(env, Started(env, x, from, to, s), to).Val?
    requires l == Wrap(env[x].ty.w, Eval(env, s, to).v) && m == Wrap(env[x].ty.w, Eval(env, Started(env, x, from, to, s), to).v)
    requires var s1 := Started(env, x, from, to, s);
             Count(s1[x], l, down) != Count(s1[x], m, down) && n == Min(Count(s1[x], l, down), Count(s1[x], m, down))
    ensures !Alike(env, x, from, to, down, SEmpty, k, s, cs, n)
  {
    hide Exec, ExecFor, CExecAll, Eval, TypeOf, Wrap, Mirrors, Started, Count;
    var s1 := Started(env, x, from, to, s);
    EmptyLoop(BeforeStart, env, x, l, down, s1, n);
    EmptyLoop(AfterStart, env, x, m, down, s1, n);
    ForMeans(BeforeStart, env, x, from, to, down, SEmpty, s, n);
    ForEmitted(env, x, from, to, down, SEmpty, k, s, cs, n);
  }

  function Min(a: nat, b: nat): nat { if a < b then a else b }

  lemma UnfaithfulIfNot(env: Env, x: string, from: Expr, to: Expr, down: bool, k: nat, s: Store, cs: CStore) returns (n: nat)
    requires EnvOk(env) && ForOk(env, x, from, to) && StoreOk(env, s) && Mirrors(env, s, cs)
    requires !LimitAgrees(env, x, from, to, down, s)
    ensures !Alike(env, x, from, to, down, SEmpty, k, s, cs, n)
  {
    hide Alike, Eval, TypeOf, Wrap, Mirrors, Started;
    var w, s1 := env[x].ty.w, Started(env, x, from, to, s);
    var before, after := Eval(env, s, to), Eval(env, s1, to);
    if before.Val? && after.Val? {
      var l, m := Wrap(w, before.v), Wrap(w, after.v);
      n := Min(Count(s1[x], l, down), Count(s1[x], m, down));
      UnfaithfulLimit(env, x, from, to, down, k, s, cs, l, m, n);
    } else {
      n := 0;
      UnfaithfulAbort(env, x, from, to, down, k, s, cs);
    }
  }

  /** In any given store, the emitted FOR is faithful to the dialect for every
      body and every run length exactly when the limit does not change as the
      control variable takes its start value. */
  lemma FaithfulExactly(env: Env, x: string, from: Expr, to: Expr, down: bool, k: nat, s: Store, cs: CStore)
    requires EnvOk(env) && ForOk(env, x, from, to) && StoreOk(env, s) && Mirrors(env, s, cs)
    ensures LoopFaithful(env, x, from, to, down, k, s, cs) <==> LimitAgrees(env, x, from, to, down, s)
  {
    hide Alike, Eval, TypeOf, Mirrors, LimitAgrees;
    if LimitAgrees(env, x, from, to, down, s) {
      FaithfulAll(env, x, from, to, down, k, s, cs);
    } else {
      var n := UnfaithfulIfNot(env, x, from, to, down, k, s, cs);
      assert StmtOk(env, SEmpty) && LimitsFixed(SEmpty);
    }
  }

  lemma FaithfulAll(env: Env, x: string, from: Expr, to: Expr, down: bool, k: nat, s: Store, cs: CStore)
    requires EnvOk(env) && ForOk(env, x, from, to) && StoreOk(env, s) && Mirrors(env, s, cs)
    requires LimitAgrees(env, x, from, to, down, s)
    ensures LoopFaithful(env, x, from, to, down, k, s, cs)
  {
    hide Alike, Eval, TypeOf, Mirrors, LimitAgrees;
    forall b, n: nat | StmtOk(env, b) && LimitsFixed(b)
      ensures Alike(env, x, from, to, down, b, k, s, cs, n)
    {
      FaithfulIfAgrees(env, x, from, to, down, k, s, cs, b, n);
    }
  }

  const OneInteger: Env := map["i" := SVar(TInt(W16))]
  const IsFive: Store := map["i" := 5]

  lemma OneIntegerOk()
    ensures EnvOk(OneInteger) && StoreOk(OneInteger, IsFive)
    ensures ForOk(OneInteger, "i", EInt(1), EName("i"))
  {
  }

  lemma ToItselfRuns(rule: LimitRule, lim: int)
    requires 1 <= lim <= 5
    ensures EnvOk(OneInteger) && StoreOk(OneInteger, IsFive["i" := 1])
    ensures var r := ExecFor(rule, OneInteger, "i", lim, false, SEmpty, IsFive["i" := 1], 5);
            r.out.Normal? && r.s["i"] == lim + 1
  {
    OneIntegerOk();
    EmptyLoop(rule, OneInteger, "i", lim, false, IsFive["i" := 1], 5);
    WrapFits(W16, lim + 1);
  }

  /** i := 5; FOR i := 1 TO i DO ; -- the dialect counts to 5 and leaves i at
      6, the emitted C counts to 1 and leaves it at 2. */
  lemma LimitNamesControl(k: nat, cs: CStore)
    requires PVar("i") in cs && cs[PVar("i")] == 5
    ensures EnvOk(OneInteger) && StoreOk(OneInteger, IsFive) && ForOk(OneInteger, "i", EInt(1), EName("i"))
    ensures var r := Exec(BeforeStart, OneInteger, SFor("i", EInt(1), EName("i"), false, SEmpty), IsFive, 5);
            r.out.Normal? && r.s["i"] == 6
    ensures var c := CExecAll(ForCode(OneInteger, "i", EInt(1), EName("i"), false, SEmpty, k), cs, 5);
            c.out.CNormal? && PVar("i") in c.st && c.st[PVar("i")] == 2
  {
    OneIntegerOk();
    WrapFits(W16, 1);
    WrapFits(W16, 5);
    ToItselfRuns(BeforeStart, 5);
    ToItselfRuns(AfterStart, 1);
    ForEmitted(OneInteger, "i", EInt(1), EName("i"), false, SEmpty, k, IsFive, cs, 5);
    assert IsVar(OneInteger, "i");
  }
}
