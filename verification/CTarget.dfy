/** The C that the translator writes, as a tree, with the meaning C99 gives it:
    integer conversions (section 6.3.1.3 of ISO/IEC 9899:1999, with the usual
    two's-complement choice for signed targets), promotions and the usual
    arithmetic conversions (6.3.1.1, 6.3.1.8), truncating division (6.5.5),
    the for statement (6.8.5.3) and continue (6.8.6.2). Signed overflow and
    division by zero are undefined behaviour. */
module CTarget {
  import opened Bits

  datatype CType = CSigned(w: Width) | CUnsigned(w: Width)

  const CInt: CType := CSigned(W32)
  const CByte: CType := CUnsigned(W8)

  /** Variables of the emitted C: the Pascal ones, and the two temporaries of
      the FOR loop numbered n. */
  datatype CName = PVar(x: string) | Lim(n: nat) | Done(n: nat)

  datatype COp =
    | CAdd | CSub | CMul | CDiv | CMod
    | CBitAnd | CBitOr
    | CEq | CNe | CLt | CLe | CGt | CGe

  /** The prelude's wrapping helpers. */
  datatype Helper = PasAdd | PasSub | PasMul | PasDiv | PasMod

  datatype CExpr =
    | CConst(ty: CType, v: int)
    | CVar(name: CName, ty: CType)
    | CCast(ty: CType, e: CExpr)
    | CBin(op: COp, a: CExpr, b: CExpr)
    | CAndAnd(a: CExpr, b: CExpr)
    | CBang(e: CExpr)
    | CTilde(e: CExpr)
    | CHelp(h: Helper, w: Width, a: CExpr, b: CExpr)
    | CHelpNeg(w: Width, e: CExpr)

  datatype CVal = CVal(ty: CType, v: int) | CAbort | CUndef

  type CStore = map<CName, int>

  predicate Holds(t: CType, v: int) {
    match t case CSigned(w) => Fits(w, v) case CUnsigned(w) => FitsUnsigned(w, v)
  }

  function Convert(t: CType, v: int): (r: int)
    ensures Holds(t, r)
  {
    match t case CSigned(w) => Wrap(w, v) case CUnsigned(w) => Low(w, v)
  }

  function Promote(t: CType): CType {
    if Bound(t.w) < 32 then CInt else t
  }

  function Common(s: CType, t: CType): CType {
    var a, b := Promote(s), Promote(t);
    if a.CSigned? == b.CSigned? then (if Bound(b.w) > Bound(a.w) then b else a)
    else
      var (u, i) := if a.CUnsigned? then (a, b) else (b, a);
      if Bound(u.w) >= Bound(i.w) then u else i
  }

  /** A result of type t: reduced when unsigned, undefined when a signed type
      cannot hold it. */
  function Deliver(t: CType, v: int): CVal {
    if t.CUnsigned? then CVal(t, Low(t.w, v))
    else if Fits(t.w, v) then CVal(t, v)
    else CUndef
  }

  function Truth(b: bool): CVal { CVal(CInt, if b then 1 else 0) }

  /** A binary operator on values x of type s and y of type t. */
  function ApplyC(op: COp, s: CType, x: int, t: CType, y: int): CVal {
    var c := Common(s, t);
    var a, b := Convert(c, x), Convert(c, y);
    match op
    case CAdd => Deliver(c, a + b)
    case CSub => Deliver(c, a - b)
    case CMul => Deliver(c, a * b)
    case CDiv => if b == 0 then CUndef else Deliver(c, TruncDiv(a, b))
    case CMod => if b == 0 || (c.CSigned? && !Fits(c.w, TruncDiv(a, b))) then CUndef else Deliver(c, TruncMod(a, b))
    case CBitAnd => CVal(c, BitAnd(a, b))
    case CBitOr => CVal(c, BitOr(a, b))
    case CEq => Truth(a == b) case CNe => Truth(a != b)
    case CLt => Truth(a < b) case CLe => Truth(a <= b)
    case CGt => Truth(a > b) case CGe => Truth(a >= b)
  }

  function CastC(t: CType, x: CVal): CVal {
    if x.CVal? then CVal(t, Convert(t, x.v)) else x
  }

  /** The unsigned type a helper of width w computes in. */
  function Carrier(w: Width): Width { if w == W64 then W64 else W32 }

  /** The bodies of pas_add, pas_sub and pas_mul: through the carrier and back. */
  function ThroughCarrier(op: COp, w: Width, a: int, b: int): CVal {
    var u := CUnsigned(Carrier(w));
    CastC(CSigned(w), CastC(u, ApplyC(op, u, Convert(u, a), u, Convert(u, b))))
  }

  /** A prelude helper called with arguments already converted to int<w>_t. */
  function CallHelper(h: Helper, w: Width, a: int, b: int): CVal {
    match h
    case PasAdd => ThroughCarrier(CAdd, w, a, b)
    case PasSub => ThroughCarrier(CSub, w, a, b)
    case PasMul => ThroughCarrier(CMul, w, a, b)
    case PasDiv =>
      if b == 0 then CAbort
      else if b == -1 then ThroughCarrier(CSub, w, 0, a)
      else CastC(CSigned(w), ApplyC(CDiv, CSigned(w), a, CSigned(w), b))
    case PasMod =>
      if b == 0 then CAbort
      else if b == -1 then CVal(CSigned(w), 0)
      else CastC(CSigned(w), ApplyC(CMod, CSigned(w), a, CSigned(w), b))
  }

  function CEval(e: CExpr, st: CStore): CVal {
    match e
    case CConst(t, v) => CVal(t, v)
    case CVar(x, t) => if x in st && Holds(t, st[x]) then CVal(t, st[x]) else CUndef
    case CCast(t, a) => CastC(t, CEval(a, st))
    case CBin(op, a, b) =>
      var x, y := CEval(a, st), CEval(b, st);
      if !x.CVal? then x else if !y.CVal? then y else ApplyC(op, x.ty, x.v, y.ty, y.v)
    case CAndAnd(a, b) =>
      var x := CEval(a, st);
      if !x.CVal? then x
      else if x.v == 0 then Truth(false)
      else
        var y := CEval(b, st);
        if !y.CVal? then y else Truth(y.v != 0)
    case CBang(a) =>
      var x := CEval(a, st);
      if x.CVal? then Truth(x.v == 0) else x
    case CTilde(a) =>
      var x := CEval(a, st);
      if x.CVal? then
        var t := Promote(x.ty);
        CVal(t, Convert(t, BitNot(Convert(t, x.v))))
      else x
    case CHelp(h, w, a, b) =>
      var x, y := CEval(a, st), CEval(b, st);
      if !x.CVal? then x else if !y.CVal? then y
      else CallHelper(h, w, Wrap(w, x.v), Wrap(w, y.v))
    case CHelpNeg(w, a) =>
      var x := CEval(a, st);
      if x.CVal? then ThroughCarrier(CSub, w, 0, Wrap(w, x.v)) else x
  }

  // ---- statements ----

  datatype CStmt =
    | CBlock(body: CStmts)
    | CAssign(x: CName, ty: CType, e: CExpr)
    | CIf(cond: CExpr, thn: CStmts, els: CStmts)
    | CWhile(cond: CExpr, loop: CStmts)
    | CFor(cond: CExpr, step: CStmts, loop: CStmts)
    | CReturn
    | CBreak
    | CContinue

  datatype CStmts = CNil | CCons(head: CStmt, tail: CStmts)

  function Append(a: CStmts, b: CStmts): CStmts {
    match a case CNil => b case CCons(h, t) => CCons(h, Append(t, b))
  }

  function Single(c: CStmt): CStmts { CCons(c, CNil) }

  datatype COutcome = CNormal | CBroke | CContinued | CReturned | CAborted | CUndefined | CTimedOut

  datatype CResult = CResult(out: COutcome, st: CStore)

  function Stuck(v: CVal): COutcome
    requires !v.CVal?
  {
    if v.CAbort? then CAborted else CUndefined
  }

  function CExec(c: CStmt, st: CStore, n: nat): CResult
    decreases n, c, 1
  {
    match c
    case CBlock(b) => CExecAll(b, st, n)
    case CAssign(x, t, e) =>
      var v := CEval(e, st);
      if v.CVal? then CResult(CNormal, st[x := Convert(t, v.v)]) else CResult(Stuck(v), st)
    case CIf(e, t, f) =>
      var v := CEval(e, st);
      if !v.CVal? then CResult(Stuck(v), st)
      else if v.v != 0 then CExecAll(t, st, n)
      else CExecAll(f, st, n)
    case CWhile(e, b) => CExecWhile(e, b, st, n)
    case CFor(_, _, _) => CExecFor(c, st, n)
    case CReturn => CResult(CReturned, st)
    case CBreak => CResult(CBroke, st)
    case CContinue => CResult(CContinued, st)
  }

  function CExecAll(b: CStmts, st: CStore, n: nat): CResult
    decreases n, b, 1
  {
    match b
    case CNil => CResult(CNormal, st)
    case CCons(c, rest) =>
      var r := CExec(c, st, n);
      if r.out.CNormal? then CExecAll(rest, r.st, n) else r
  }

  function CExecWhile(e: CExpr, b: CStmts, st: CStore, n: nat): CResult
    decreases n, b, 2
  {
    var v := CEval(e, st);
    if !v.CVal? then CResult(Stuck(v), st)
    else if v.v == 0 then CResult(CNormal, st)
    else if n == 0 then CResult(CTimedOut, st)
    else
      var r := CExecAll(b, st, n);
      match r.out
      case CNormal => CExecWhile(e, b, r.st, n - 1)
      case CContinued => CExecWhile(e, b, r.st, n - 1)
      case CBroke => CResult(CNormal, r.st)
      case _ => r
  }

  /** A for statement without an initializer: continue goes to the step. */
  function CExecFor(c: CStmt, st: CStore, n: nat): CResult
    requires c.CFor?
    decreases n, c, 0
  {
    var v := CEval(c.cond, st);
    if !v.CVal? then CResult(Stuck(v), st)
    else if v.v == 0 then CResult(CNormal, st)
    else if n == 0 then CResult(CTimedOut, st)
    else
      var r := CExecAll(c.loop, st, n);
      match r.out
      case CBroke => CResult(CNormal, r.st)
      case CNormal => CExecForStep(c, r.st, n)
      case CContinued => CExecForStep(c, r.st, n)
      case _ => r
  }

  function CExecForStep(c: CStmt, st: CStore, n: nat): CResult
    requires c.CFor? && n > 0
    decreases n, c.step, 2
  {
    var r := CExecAll(c.step, st, n);
    if r.out.CNormal? then CExecFor(c, r.st, n - 1) else r
  }

  // ---- which variables a statement can change ----

  predicate Assigns(c: CStmt, x: CName) {
    match c
    case CBlock(b) => AnyAssigns(b, x)
    case CAssign(y, _, _) => x == y
    case CIf(_, t, f) => AnyAssigns(t, x) || AnyAssigns(f, x)
    case CWhile(_, b) => AnyAssigns(b, x)
    case CFor(_, step, b) => AnyAssigns(step, x) || AnyAssigns(b, x)
    case _ => false
  }

  predicate AnyAssigns(b: CStmts, x: CName) {
    b.CCons? && (Assigns(b.head, x) || AnyAssigns(b.tail, x))
  }

  ghost predicate SameAt(s: CStore, t: CStore, x: CName) {
    (x in s <==> x in t) && (x in s ==> s[x] == t[x])
  }

  /** A variable no assignment names keeps its value, however the run ends. */
  lemma {:induction false} CFrame(c: CStmt, st: CStore, n: nat, x: CName)
    requires !Assigns(c, x)
    ensures SameAt(st, CExec(c, st, n).st, x)
    decreases n, c, 1
  {
    match c
    case CBlock(b) => CFrameAll(b, st, n, x);
    case CAssign(_, _, _) =>
    case CIf(_, t, f) => CFrameAll(t, st, n, x); CFrameAll(f, st, n, x);
    case CWhile(e, b) => CFrameWhile(e, b, st, n, x);
    case CFor(_, _, _) => CFrameFor(c, st, n, x);
    case _ =>
  }

  lemma {:induction false} CFrameAll(b: CStmts, st: CStore, n: nat, x: CName)
    requires !AnyAssigns(b, x)
    ensures SameAt(st, CExecAll(b, st, n).st, x)
    decreases n, b, 1
  {
    if b.CCons? {
      CFrame(b.head, st, n, x);
      var r := CExec(b.head, st, n);
      if r.out.CNormal? { CFrameAll(b.tail, r.st, n, x); }
    }
  }

  lemma {:induction false} CFrameWhile(e: CExpr, b: CStmts, st: CStore, n: nat, x: CName)
    requires !AnyAssigns(b, x)
    ensures SameAt(st, CExecWhile(e, b, st, n).st, x)
    decreases n, b, 2
  {
    CFrameAll(b, st, n, x);
    if n > 0 { CFrameWhile(e, b, CExecAll(b, st, n).st, n - 1, x); }
  }

  lemma {:induction false} CFrameFor(c: CStmt, st: CStore, n: nat, x: CName)
    requires c.CFor? && !Assigns(c, x)
    ensures SameAt(st, CExecFor(c, st, n).st, x)
    decreases n, c, 0
  {
    CFrameAll(c.loop, st, n, x);
    if n > 0 {
      var s1 := CExecAll(c.loop, st, n).st;
      CFrameAll(c.step, s1, n, x);
      CFrameFor(c, CExecAll(c.step, s1, n).st, n - 1, x);
    }
  }

  lemma {:induction false} AppendExec(a: CStmts, b: CStmts, st: CStore, n: nat)
    ensures CExecAll(Append(a, b), st, n) ==
            var r := CExecAll(a, st, n); if r.out.CNormal? then CExecAll(b, r.st, n) else r
  {
    if a.CCons? { AppendExec(a.tail, b, CExec(a.head, st, n).st, n); }
  }

  lemma {:induction false} AppendAssigns(a: CStmts, b: CStmts, x: CName)
    ensures AnyAssigns(Append(a, b), x) == (AnyAssigns(a, x) || AnyAssigns(b, x))
  {
    if a.CCons? { AppendAssigns(a.tail, b, x); }
  }
}
