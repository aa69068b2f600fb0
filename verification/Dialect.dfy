/** The rules of docs/bootstrap_subset.md that a C programmer does not expect,
    stated of the meaning of expressions in numbers, not in terms of the
    operations that define it. */
module Dialect {
  import opened Bits
  import opened Operators
  import opened PascalSource
  import opened CTarget
  import opened Emit
  import opened ExprPreservation

  /** INTEGER is 16 bits, INTEGER32 and INTEGER64 as many as they say. */
  function BitsOf(w: Width): nat { match w case W8 => 8 case W16 => 16 case W32 => 32 case W64 => 64 }

  function Exact(op: BinOp, x: int, y: int): int {
    match op case Add => x + y case Sub => x - y case _ => x * y
  }

  /** + - * are done at the width of the wider operand and wrap there: the result
      differs from the exact one by a multiple of 2^bits and is in range. */
  lemma WrapsAtWider(op: BinOp, l: Width, r: Width, x: int, y: int) returns (j: int)
    requires op.Add? || op.Sub? || op.Mul?
    ensures var bits := if BitsOf(l) >= BitsOf(r) then BitsOf(l) else BitsOf(r);
            var v := ApplyBin(op, TInt(l), TInt(r), x, y);
            && BinType(op, TInt(l), TInt(r)) == Some(TInt(if BitsOf(l) >= BitsOf(r) then l else r))
            && v.Val? && Exact(op, x, y) == v.v + j * Pow2(bits) && -Pow2(bits - 1) <= v.v < Pow2(bits - 1)
  {
    hide Wrap, Pow2;
    var w := Wider(l, r);
    var k;
    j, k := WidthLaws(w, Exact(op, x, y), BitsOf(w));
  }

  /** DIV and MOD of operands in range: only a zero divisor aborts; otherwise the
      quotient truncates, the remainder has the dividend's sign, and only
      MIN DIV -1 wraps, to MIN, with remainder 0. */
  lemma Divides(w: Width, x: int, y: int)
    requires Fits(w, x) && Fits(w, y)
    ensures var q, m := ApplyBin(IDiv, TInt(w), TInt(w), x, y), ApplyBin(Mod, TInt(w), TInt(w), x, y);
            && (q.DivByZero? <==> y == 0) && (m.DivByZero? <==> y == 0)
            && (y == -1 && x == -Pow2(BitsOf(w) - 1) ==> q == Val(x) && m == Val(0))
            && (y != 0 && !(y == -1 && x == -Pow2(BitsOf(w) - 1)) ==>
                  && x == q.v * y + m.v && (if m.v < 0 then -m.v else m.v) < (if y < 0 then -y else y)
                  && (x >= 0 ==> m.v >= 0) && (x <= 0 ==> m.v <= 0))
  {
    hide Wrap, Pow2, TruncDiv, TruncMod;
    WidthBits(w, BitsOf(w));
    if y == -1 {
      MinusOne(w, x);
    } else if y != 0 {
      TruncLaws(x, y);
      TruncDivFits(w, x, y);
      WrapFits(w, TruncDiv(x, y));
      WrapFits(w, TruncMod(x, y));
    }
  }

  lemma MinusOne(w: Width, x: int)
    requires Fits(w, x)
    ensures TruncMod(x, -1) == 0 && TruncDiv(x, -1) == -x && Wrap(w, 0) == 0
    ensures Wrap(w, -x) == if x == -Half(w) then x else -x
  {
    DivByMinusOne(x);
    WrapFits(w, 0);
    if x == -Half(w) { WrapUnique(w, -x, x, 1); } else { WrapFits(w, -x); }
  }

  /** Comparisons of integers compare their values; CHAR compares as a signed
      byte, so 200 comes before 65. */
  function AsSignedByte(c: int): int { if c >= 128 then c - 256 else c }

  predicate Ordered(op: BinOp, x: int, y: int)
    requires IsComparison(op)
  {
    (op.Eq? && x == y) || (op.Ne? && x != y) || (op.Lt? && x < y) || (op.Le? && x <= y) || (op.Gt? && x > y) || (op.Ge? && x >= y)
  }

  lemma Compares(op: BinOp, l: Width, r: Width, x: int, y: int)
    requires IsComparison(op)
    ensures ApplyBin(op, TInt(l), TInt(r), x, y) == Val(if Ordered(op, x, y) then 1 else 0)
    ensures 0 <= x <= 255 && 0 <= y <= 255 ==>
              ApplyBin(op, TChar, TChar, x, y) == Val(if Ordered(op, AsSignedByte(x), AsSignedByte(y)) then 1 else 0)
  {
    if 0 <= x <= 255 && 0 <= y <= 255 {
      WrapUnique(W8, x, AsSignedByte(x), if x >= 128 then 1 else 0);
      WrapUnique(W8, y, AsSignedByte(y), if y >= 128 then 1 else 0);
    }
  }

  /** AND and OR of BOOLEANs; negation and NOT. */
  lemma Booleans(x: int, y: int, w: Width)
    requires 0 <= x <= 1 && 0 <= y <= 1
    ensures ApplyBin(And, TBool, TBool, x, y) == Val(if x == 1 && y == 1 then 1 else 0)
    ensures ApplyBin(Or, TBool, TBool, x, y) == Val(if x == 1 || y == 1 then 1 else 0)
    ensures ApplyUn(Not, TBool, x) == if x == 1 then 0 else 1
    ensures ApplyUn(Not, TInt(w), x) == -1 - x
  {
  }

  /** AND and OR evaluate both operands, AND THEN only what it needs. */
  lemma EvaluatesBoth(env: Env, s: Store, op: BinOp, a: Expr, b: Expr)
    requires StoreOk(env, s) && TypeOf(env, EBin(op, a, b)).Some? && TypeOf(env, a).Some? && TypeOf(env, b).Some?
    requires op.And? || op.Or? || op.AndThen?
    ensures var x, y, v := Eval(env, s, a), Eval(env, s, b), Eval(env, s, EBin(op, a, b));
            if op.AndThen? then
              (v.DivByZero? <==> x.DivByZero? || (x.v != 0 && y.DivByZero?)) && (x.Val? && x.v == 0 ==> v == Val(0))
            else v.DivByZero? <==> x.DivByZero? || y.DivByZero?
  {
  }

  /** ORD keeps the value, as a 16-bit INTEGER for a CHAR or BOOLEAN, at its own
      width for an integer, as an INTEGER32 for an enumeration; CHR keeps the
      low 8 bits; RETYPE between integers keeps the low bits and the sign. */
  lemma Converts(w: Width, id: nat, x: int) returns (j: int)
    ensures OrdType(TChar) == Some(TInt(W16)) && OrdType(TBool) == Some(TInt(W16)) && OrdType(TEnum(id)) == Some(TInt(W32))
    ensures OrdType(TInt(w)) == if BitsOf(w) == 64 then None else Some(TInt(w))
    ensures Retyped(TChar, x) == x % 256
    ensures x == Retyped(TInt(w), x) + j * Pow2(BitsOf(w)) && -Pow2(BitsOf(w) - 1) <= Retyped(TInt(w), x) < Pow2(BitsOf(w) - 1)
  {
    var k;
    j, k := WidthLaws(w, x, BitsOf(w));
  }

  /** An integer literal is an INTEGER from -32767 to 32767, else an INTEGER32 if
      it fits, else an INTEGER64. */
  lemma Literals(v: int)
    ensures IntTypeFor(v) == if -32767 <= v <= 32767 then TInt(W16)
                             else if -2147483648 <= v <= 2147483647 then TInt(W32) else TInt(W64)
  {
  }

  /** An integer variable takes the assigned value modulo 2^bits, in range; any
      other variable takes it as it is. */
  lemma Stores(t: Ty, v: int) returns (j: int)
    ensures if t.TInt? then v == Stored(t, v) + j * Pow2(BitsOf(t.w)) && -Pow2(BitsOf(t.w) - 1) <= Stored(t, v) < Pow2(BitsOf(t.w) - 1)
            else Stored(t, v) == v
  {
    var k;
    j := 0;
    if t.TInt? { j, k := WidthLaws(t.w, v, BitsOf(t.w)); }
  }

  /** Which operands an operator takes, and the type of its result. */
  lemma Takes(op: BinOp, l: Ty, r: Ty)
    ensures l.TInt? && r.TInt? ==> (BinType(op, l, r).Some? <==> !op.AndThen? && !op.RDiv?)
    ensures l.TBool? && r.TBool? ==> (BinType(op, l, r).Some? <==> op.And? || op.Or? || op.AndThen? || op.Eq? || op.Ne?)
    ensures (l.TChar? && r.TChar?) || (l.TEnum? && l == r) ==> (BinType(op, l, r).Some? <==> IsComparison(op))
    ensures !(l.TInt? && r.TInt?) && l != r ==> BinType(op, l, r).None?
    ensures IsComparison(op) && BinType(op, l, r).Some? ==> BinType(op, l, r) == Some(TBool)
    ensures l.TBool? && BinType(op, l, r).Some? ==> BinType(op, l, r) == Some(TBool)
  {
  }

  /** Statements in order, up to the first that does not end normally; IF runs
      one branch or none; an assignment changes one variable. */
  lemma Runs(rule: LimitRule, env: Env, a: Stmt, rest: Stmts, c: Expr, x: string, e: Expr, s: Store, n: nat, y: string)
    requires EnvOk(env) && StoreOk(env, s) && StmtOk(env, a) && StmtsOk(env, rest) && CondOk(env, c) && StmtOk(env, SAssign(x, e))
    ensures StmtOk(env, SBlock(Cons(a, rest))) && StmtOk(env, SIf(c, a, None))
    ensures var r := Exec(rule, env, a, s, n);
            Exec(rule, env, SBlock(Cons(a, rest)), s, n) == if r.out == Normal then Exec(rule, env, SBlock(rest), r.s, n) else r
    ensures Exec(rule, env, SBlock(Nil), s, n) == Result(Normal, s)
    ensures var v := Eval(env, s, c);
            Exec(rule, env, SIf(c, a, None), s, n) ==
            if v == DivByZero then Result(Aborted, s) else if v == Val(1) then Exec(rule, env, a, s, n) else Result(Normal, s)
    ensures var r := Exec(rule, env, SAssign(x, e), s, n);
            && (r.out == Aborted <==> Eval(env, s, e) == DivByZero) && (r.out == Aborted || r.out == Normal)
            && (y in s && (y != x || r.out == Aborted) ==> y in r.s && r.s[y] == s[y])
            && (r.out == Normal && env[x].ty == TypeOf(env, e).value ==> r.s[x] == Eval(env, s, e).v)
  {
    hide Eval, TypeOf, Wrap;
    BlockRuns(rule, env, a, rest, s, n);
    AssignRuns(rule, env, x, e, s, n);
  }

  lemma BlockRuns(rule: LimitRule, env: Env, a: Stmt, rest: Stmts, s: Store, n: nat)
    requires EnvOk(env) && StoreOk(env, s) && StmtOk(env, a) && StmtsOk(env, rest)
    ensures StmtOk(env, SBlock(Cons(a, rest))) && StmtOk(env, SBlock(rest))
    ensures var r := Exec(rule, env, a, s, n);
            Exec(rule, env, SBlock(Cons(a, rest)), s, n) == if r.out == Normal then Exec(rule, env, SBlock(rest), r.s, n) else r
    ensures Exec(rule, env, SBlock(Nil), s, n) == Result(Normal, s)
  {
    var r := Exec(rule, env, a, s, n);
    assert ExecAll(rule, env, Cons(a, rest), s, n) == if r.out.Normal? then ExecAll(rule, env, rest, r.s, n) else r;
  }

  lemma AssignRuns(rule: LimitRule, env: Env, x: string, e: Expr, s: Store, n: nat)
    requires EnvOk(env) && StoreOk(env, s) && StmtOk(env, SAssign(x, e))
    ensures Eval(env, s, e).Val? && env[x].ty == TypeOf(env, e).value ==> Stored(env[x].ty, Eval(env, s, e).v) == Eval(env, s, e).v
  {
    EvalInTy(env, s, e);
    if Eval(env, s, e).Val? && env[x].ty == TypeOf(env, e).value && env[x].ty.TInt? { WrapFits(env[x].ty.w, Eval(env, s, e).v); }
  }
}
