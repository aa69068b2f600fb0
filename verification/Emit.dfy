/** The emitter: gen_expr, gen_binary, gen_builtin, conv, int_arith and
    gen_stmt of bootstrap/emit.c, from the syntax tree to the C tree. None
    stands for a rejected program. */
module Emit {
  import opened Bits
  import opened Operators
  import opened PascalSource
  import opened CTarget

  datatype CE = CE(c: CExpr, ty: Ty)

  /** The C type that stores a value of t. */
  function CTypeOf(t: Ty): CType {
    match t
    case TInt(w) => CSigned(w)
    case TBool => CByte
    case TChar => CByte
    case TEnum(_) => CSigned(W32)
  }

  /** The C type of the literal int_lit writes: -2147483648 negates a constant
      too big for int, so it is a long. */
  function LiteralType(v: int): CType {
    if -0x8000_0000 < v <= 0x7FFF_FFFF then CInt else CSigned(W64)
  }

  function IntLiteral(v: int): CExpr { CConst(LiteralType(v), v) }

  function ByteLiteral(v: int): CExpr { CCast(CByte, CConst(CInt, v)) }

  function GenName(env: Env, x: string): Option<CE> {
    if x !in env then None
    else match env[x]
      case SVar(t) => Some(CE(CVar(PVar(x), CTypeOf(t)), t))
      case SConst(t, v) => Some(CE(if t.TBool? || t.TChar? then ByteLiteral(v) else IntLiteral(v), t))
  }

  function OpText(op: BinOp): COp
    requires !op.AndThen? && !op.RDiv?
  {
    match op
    case Add => CAdd case Sub => CSub case Mul => CMul case IDiv => CDiv case Mod => CMod
    case And => CBitAnd case Or => CBitOr
    case Eq => CEq case Ne => CNe case Lt => CLt case Le => CLe case Gt => CGt case Ge => CGe
  }

  function HelperFor(op: BinOp): Helper
    requires IsArithmetic(op)
  {
    match op
    case Add => PasAdd case Sub => PasSub case Mul => PasMul case IDiv => PasDiv case Mod => PasMod
  }

  function GenBinary(op: BinOp, l: CE, r: CE): Option<CE> {
    if op.AndThen? then
      if l.ty.TBool? && r.ty.TBool? then Some(CE(CCast(CByte, CAndAnd(l.c, r.c)), TBool)) else None
    else if op.RDiv? then None
    else
      var o := OpText(op);
      if IsComparison(op) then
        if l.ty.TInt? && r.ty.TInt? then
          var ct := CSigned(Wider(l.ty.w, r.ty.w));
          Some(CE(CCast(CByte, CBin(o, CCast(ct, l.c), CCast(ct, r.c))), TBool))
        else if l.ty.TChar? && r.ty.TChar? then
          Some(CE(CCast(CByte, CBin(o, CCast(CSigned(W8), l.c), CCast(CSigned(W8), r.c))), TBool))
        else if l.ty.TBool? && r.ty.TBool? then
          if op.Eq? || op.Ne? then Some(CE(CCast(CByte, CBin(o, l.c, r.c)), TBool)) else None
        else if l.ty.TEnum? && l.ty == r.ty then Some(CE(CCast(CByte, CBin(o, l.c, r.c)), TBool))
        else None
      else if op.And? || op.Or? then
        if l.ty.TBool? && r.ty.TBool? then Some(CE(CCast(CByte, CBin(o, l.c, r.c)), TBool))
        else if l.ty.TInt? && r.ty.TInt? then
          var t := TInt(Wider(l.ty.w, r.ty.w));
          var ct := CTypeOf(t);
          Some(CE(CCast(ct, CBin(o, CCast(ct, l.c), CCast(ct, r.c))), t))
        else None
      else if l.ty.TInt? && r.ty.TInt? then
        var w := Wider(l.ty.w, r.ty.w);
        Some(CE(CHelp(HelperFor(op), w, CCast(CSigned(w), l.c), CCast(CSigned(w), r.c)), TInt(w)))
      else None
  }

  function GenUnary(op: UnOp, v: CE): Option<CE> {
    match op
    case Neg => if v.ty.TInt? then Some(CE(CHelpNeg(v.ty.w, CCast(CSigned(v.ty.w), v.c)), v.ty)) else None
    case Not =>
      if v.ty.TBool? then Some(CE(CCast(CByte, CBang(v.c)), TBool))
      else if v.ty.TInt? then Some(CE(CCast(CSigned(v.ty.w), CTilde(v.c)), v.ty))
      else None
  }

  function GenOrd(v: CE): Option<CE> {
    match v.ty
    case TInt(w) => if w == W64 then None else Some(v)
    case TEnum(_) => Some(CE(CCast(CSigned(W32), v.c), TInt(W32)))
    case _ => Some(CE(CCast(CSigned(W16), CCast(CByte, v.c)), TInt(W16)))
  }

  /** gen_expr. */
  function GenExpr(env: Env, e: Expr): Option<CE> {
    match e
    case EInt(v) => Some(CE(IntLiteral(v), IntTypeFor(v)))
    case EChar(c) => Some(CE(ByteLiteral(c), TChar))
    case EName(x) => GenName(env, x)
    case EBin(op, a, b) =>
      var l, r := GenExpr(env, a), GenExpr(env, b);
      if l.Some? && r.Some? then GenBinary(op, l.value, r.value) else None
    case EUn(op, a) =>
      var v := GenExpr(env, a);
      if v.Some? then GenUnary(op, v.value) else None
    case EOrd(a) =>
      var v := GenExpr(env, a);
      if v.Some? then GenOrd(v.value) else None
    case EChr(a) =>
      var v := GenExpr(env, a);
      if v.Some? && v.value.ty.TInt? then Some(CE(CCast(CByte, v.value.c), TChar)) else None
    case ERetype(to, a) =>
      var v := GenExpr(env, a);
      if v.Some? && TyOk(to) && !to.TBool? then Some(CE(CCast(CTypeOf(to), v.value.c), to)) else None
  }

  /** conv: e converted for storage in a variable of type t. */
  function Conv(v: CE, t: Ty): Option<CExpr> {
    match t
    case TInt(_) => if v.ty.TInt? || v.ty.TEnum? then Some(CCast(CTypeOf(t), v.c)) else None
    case TBool => if v.ty.TBool? then Some(CCast(CByte, v.c)) else None
    case _ => if v.ty == t then Some(v.c) else None
  }

  // ---- statements ----

  datatype Code = Code(stmts: CStmts, count: nat)

  /** The for statement of the FOR loop numbered k over the variable x. */
  function ForLoop(x: string, w: Width, k: nat, down: bool, body: CStmts): CStmt {
    var t := CSigned(w);
    var v, lim := CVar(PVar(x), t), CVar(Lim(k), t);
    CFor(CAndAnd(CBang(CVar(Done(k), CInt)), CBin(if down then CGe else CLe, v, lim)),
         CCons(CAssign(Done(k), CInt, CBin(CEq, v, lim)),
               Single(CAssign(PVar(x), t, CHelp(if down then PasSub else PasAdd, w, v, CConst(CInt, 1))))),
         body)
  }

  /** The block of the FOR loop numbered k: the control variable takes the
      start value, then the limit is saved, then the loop runs. */
  function ForBlock(x: string, w: Width, k: nat, down: bool, start: CExpr, limit: CExpr, body: CStmts): CStmt {
    var t := CSigned(w);
    var saved := CAssign(Lim(k), t, CCast(t, limit));
    var loop := CCons(CAssign(Done(k), CInt, CConst(CInt, 0)), Single(ForLoop(x, w, k, down, body)));
    CBlock(CCons(CAssign(PVar(x), t, start), CCons(saved, loop)))
  }

  /** gen_stmt, with the FOR counter before and after. */
  function GenStmt(env: Env, st: Stmt, k: nat): (r: Option<Code>)
    ensures r.Some? ==> k <= r.value.count
    decreases st, 1
  {
    match st
    case SEmpty => Some(Code(CNil, k))
    case SBlock(b) =>
      var c := GenStmts(env, b, k);
      if c.Some? then Some(Code(Single(CBlock(c.value.stmts)), c.value.count)) else None
    case SAssign(x, e) =>
      var v := GenExpr(env, e);
      if !IsVar(env, x) || v.None? then None
      else
        var c := Conv(v.value, env[x].ty);
        if c.None? then None
        else Some(Code(Single(CAssign(PVar(x), CTypeOf(env[x].ty), c.value)), k))
    case SIf(c, t, els) =>
      var v := GenExpr(env, c);
      if v.None? || !v.value.ty.TBool? then None
      else
        var ct := GenBody(env, t, k);
        if ct.None? then None
        else if els.None? then Some(Code(Single(CIf(v.value.c, ct.value.stmts, CNil)), ct.value.count))
        else
          var ce := GenBody(env, els.value, ct.value.count);
          if ce.None? then None
          else Some(Code(Single(CIf(v.value.c, ct.value.stmts, ce.value.stmts)), ce.value.count))
    case SWhile(c, b) =>
      var v := GenExpr(env, c);
      if v.None? || !v.value.ty.TBool? then None
      else
        var cb := GenBody(env, b, k);
        if cb.None? then None else Some(Code(Single(CWhile(v.value.c, cb.value.stmts)), cb.value.count))
    case SFor(x, from, to, down, b) =>
      if !IsVar(env, x) || !env[x].ty.TInt? then None
      else
        var t := env[x].ty;
        var i, l := GenExpr(env, from), GenExpr(env, to);
        if i.None? || l.None? || !l.value.ty.TInt? then None
        else
          var start := Conv(i.value, t);
          var cb := GenBody(env, b, k + 1);
          if start.None? || cb.None? then None
          else
            Some(Code(Single(ForBlock(x, t.w, k + 1, down, start.value, l.value.c, cb.value.stmts)), cb.value.count))
    case SReturn => Some(Code(Single(CReturn), k))
    case SBreak => Some(Code(Single(CBreak), k))
    case SCycle => Some(Code(Single(CContinue), k))
  }

  function GenStmts(env: Env, b: Stmts, k: nat): (r: Option<Code>)
    ensures r.Some? ==> k <= r.value.count
    decreases b, 1
  {
    match b
    case Nil => Some(Code(CNil, k))
    case Cons(st, rest) =>
      var c := GenStmt(env, st, k);
      if c.None? then None
      else
        var d := GenStmts(env, rest, c.value.count);
        if d.None? then None else Some(Code(Append(c.value.stmts, d.value.stmts), d.value.count))
  }

  /** gen_block_body: the statements of a block without its braces. */
  function GenBody(env: Env, st: Stmt, k: nat): (r: Option<Code>)
    ensures r.Some? ==> k <= r.value.count
    decreases st, 2
  {
    if st.SBlock? then GenStmts(env, st.body, k) else GenStmt(env, st, k)
  }

  /** The emitter as bootstrap/emit.c runs it: statements are appended to a
      current body, and every FOR takes the next number of a running count. */
  class Emitter {
    const env: Env
    var body: CStmts
    var forCount: nat

    constructor (env: Env)
      ensures this.env == env && body == CNil && forCount == 0
    {
      this.env, body, forCount := env, CNil, 0;
    }

    method Put(c: CStmt)
      modifies `body
      ensures body == Append(old(body), Single(c))
    {
      body := Append(body, Single(c));
    }

    method Stmt(st: Stmt) returns (ok: bool)
      modifies this
      ensures ok == GenStmt(env, st, old(forCount)).Some?
      ensures ok ==> var c := GenStmt(env, st, old(forCount)).value;
                     body == Append(old(body), c.stmts) && forCount == c.count
      decreases st, 1
    {
      ok := true;
      match st {
        case SEmpty => AppendNil(body);
        case SReturn => Put(CReturn);
        case SBreak => Put(CBreak);
        case SCycle => Put(CContinue);
        case SBlock(b) =>
          var saved := body;
          body := CNil;
          ok := Body(st);
          if ok { body := Append(saved, Single(CBlock(body))); }
        case SAssign(x, e) =>
          var v := GenExpr(env, e);
          if !IsVar(env, x) || v.None? { return false; }
          var c := Conv(v.value, env[x].ty);
          if c.None? { return false; }
          Put(CAssign(PVar(x), CTypeOf(env[x].ty), c.value));
        case SIf(c, t, els) =>
          var v := GenExpr(env, c);
          if v.None? || !v.value.ty.TBool? { return false; }
          var saved := body;
          body := CNil;
          ok := Body(t);
          if !ok { return; }
          var thn := body;
          body := CNil;
          if els.Some? {
            ok := Body(els.value);
            if !ok { return; }
          }
          body := Append(saved, Single(CIf(v.value.c, thn, body)));
        case SWhile(c, b) =>
          var v := GenExpr(env, c);
          if v.None? || !v.value.ty.TBool? { return false; }
          var saved := body;
          body := CNil;
          ok := Body(b);
          if ok { body := Append(saved, Single(CWhile(v.value.c, body))); }
        case SFor(x, from, to, down, b) =>
          if !IsVar(env, x) || !env[x].ty.TInt? { return false; }
          var t := env[x].ty;
          var i, l := GenExpr(env, from), GenExpr(env, to);
          if i.None? || l.None? || !l.value.ty.TInt? { return false; }
          var start := Conv(i.value, t);
          if start.None? { return false; }
          var saved := body;
          forCount := forCount + 1;
          var k := forCount;
          body := CNil;
          ok := Body(b);
          if !ok { return; }
          var loop := ForLoop(x, t.w, k, down, body);
          var assign, limit := CAssign(PVar(x), CTypeOf(t), start.value), CAssign(Lim(k), CTypeOf(t), CCast(CTypeOf(t), l.value.c));
          var clear := CAssign(Done(k), CInt, CConst(CInt, 0));
          body := CNil;
          Put(assign);
          Put(limit);
          assert body == CCons(assign, Single(limit));
          Put(clear);
          AppendUnder(assign, Single(limit), clear);
          Put(loop);
          AppendUnder(assign, CCons(limit, Single(clear)), loop);
          AppendUnder(limit, Single(clear), loop);
          body := Append(saved, Single(CBlock(body)));
      }
    }

    method Body(st: Stmt) returns (ok: bool)
      modifies this
      ensures ok == GenBody(env, st, old(forCount)).Some?
      ensures ok ==> var c := GenBody(env, st, old(forCount)).value;
                     body == Append(old(body), c.stmts) && forCount == c.count
      decreases st, if st.SBlock? then 0 else 2
    {
      if st.SBlock? {
        var rest := st.body;
        ok := true;
        AppendNil(body);
        ghost var done := CNil;
        while rest.Cons?
          invariant rest == st.body || rest < st.body
          invariant body == Append(old(body), done)
          invariant var whole, left := GenStmts(env, st.body, old(forCount)), GenStmts(env, rest, forCount);
                    && whole.Some? == left.Some?
                    && (left.Some? ==> whole.value == Code(Append(done, left.value.stmts), left.value.count))
          decreases rest
        {
          ghost var before, k := body, forCount;
          ok := Stmt(rest.head);
          if !ok { return; }
          ghost var c := GenStmt(env, rest.head, k).value.stmts;
          AppendAssoc(old(body), done, c);
          ghost var left := GenStmts(env, rest.tail, forCount);
          if left.Some? { AppendAssoc(done, c, left.value.stmts); }
          done := Append(done, c);
          rest := rest.tail;
        }
        AppendNil(done);
      } else {
        ok := Stmt(st);
      }
    }
  }

  lemma AppendUnder(a: CStmt, t: CStmts, c: CStmt)
    ensures Append(CCons(a, t), Single(c)) == CCons(a, Append(t, Single(c)))
    ensures t.CCons? && t.tail == CNil ==> Append(t, Single(c)) == CCons(t.head, Single(c))
  {
  }

  lemma {:induction false} AppendNil(a: CStmts)
    ensures Append(a, CNil) == a
  {
    if a.CCons? { AppendNil(a.tail); }
  }

  lemma {:induction false} AppendAssoc(a: CStmts, b: CStmts, c: CStmts)
    ensures Append(Append(a, b), c) == Append(a, Append(b, c))
  {
    if a.CCons? { AppendAssoc(a.tail, b, c); }
  }
}
