/** The C written for an expression means what the expression means. */
module ExprPreservation {
  import opened Bits
  import opened Operators
  import opened PascalSource
  import opened CTarget
  import opened Emit

  /** C types whose values survive the usual arithmetic conversions. */
  predicate Plain(t: CType) { t.CSigned? || t.w == W8 }

  /** A C result stands for a Pascal one: the same integer, or abort for a
      division by zero; never undefined behaviour. */
  predicate Agrees(c: CVal, v: Value) {
    match v
    case DivByZero => c.CAbort?
    case Val(x) => c.CVal? && c.v == x && Plain(c.ty) && Holds(c.ty, x)
  }

  /** The C store holds every Pascal variable under its own name. */
  ghost predicate Mirrors(env: Env, s: Store, st: CStore) {
    forall x :: IsVar(env, x) ==> x in s && PVar(x) in st && st[PVar(x)] == s[x]
  }

  // ---- the prelude ----

  lemma CarrierWraps(op: COp, w: Width, a: int, b: int)
    requires op.CAdd? || op.CSub? || op.CMul?
    ensures ThroughCarrier(op, w, a, b) ==
            CVal(CSigned(w), Wrap(w, match op case CAdd => a + b case CSub => a - b case _ => a * b))
  {
    hide TruncDiv, TruncMod, BitAnd, BitOr, Wrap, Low;
    var c := Carrier(w);
    LowSum(c, a, b);
    LowProduct(c, a, b);
    LowFits(c, Low(c, a));
    LowFits(c, Low(c, b));
    var exact := match op case CAdd => a + b case CSub => a - b case _ => a * b;
    LowFits(c, Low(c, exact));
    WrapOfLow(w, c, exact);
  }

  lemma ConvertHeld(t: CType, v: int)
    requires Holds(t, v)
    ensures Convert(t, v) == v
  {
    match t case CSigned(w) => WrapFits(w, v); case CUnsigned(w) => LowFits(w, v);
  }

  /** Operands of plain types keep their values in a signed common type. */
  lemma PlainOperands(s: CType, x: int, t: CType, y: int)
    requires Plain(s) && Plain(t) && Holds(s, x) && Holds(t, y)
    ensures var c := Common(s, t);
            c.CSigned? && Bound(c.w) >= 32 && Bound(c.w) >= Bound(s.w) && Bound(c.w) >= Bound(t.w) &&
            Holds(c, x) && Holds(c, y) && Convert(c, x) == x && Convert(c, y) == y
  {
    var c := Common(s, t);
    ConvertHeld(c, x);
    ConvertHeld(c, y);
  }

  lemma DivHelper(op: BinOp, w: Width, x: int, y: int)
    requires (op.IDiv? || op.Mod?) && Fits(w, x) && Fits(w, y) && y != 0 && y != -1
    ensures CallHelper(HelperFor(op), w, x, y) == CVal(CSigned(w), Arith(op, w, x, y).v)
  {
    PlainOperands(CSigned(w), x, CSigned(w), y);
    TruncDivFits(w, x, y);
    var c := Common(CSigned(w), CSigned(w));
    assert Fits(c.w, TruncDiv(x, y)) && Fits(c.w, TruncMod(x, y));
  }

  lemma DivByMinusOneHelper(op: BinOp, w: Width, x: int)
    requires (op.IDiv? || op.Mod?) && Fits(w, x)
    ensures CallHelper(HelperFor(op), w, x, -1) == CVal(CSigned(w), Arith(op, w, x, -1).v)
  {
    DivByMinusOne(x);
    if op.IDiv? {
      calc {
        CallHelper(PasDiv, w, x, -1);
        ThroughCarrier(CSub, w, 0, x);
        { CarrierWraps(CSub, w, 0, x); }
        CVal(CSigned(w), Wrap(w, 0 - x));
        { assert 0 - x == TruncDiv(x, -1); }
        CVal(CSigned(w), Wrap(w, TruncDiv(x, -1)));
      }
    } else {
      WrapFits(w, 0);
      assert Arith(Mod, w, x, -1) == Val(Wrap(w, TruncMod(x, -1)));
    }
  }

  /** Every helper computes the exact result wrapped at its width, with a zero
      divisor the only abort: MIN DIV -1 is MIN and MIN MOD -1 is 0. */
  lemma HelperIsArith(op: BinOp, w: Width, x: int, y: int)
    requires IsArithmetic(op) && Fits(w, x) && Fits(w, y)
    ensures var c, v := CallHelper(HelperFor(op), w, x, y), Arith(op, w, x, y);
            match v case DivByZero => c.CAbort? case Val(r) => c == CVal(CSigned(w), r)
  {
    if op.IDiv? || op.Mod? {
      if y == -1 { DivByMinusOneHelper(op, w, x); }
      else if y != 0 { DivHelper(op, w, x, y); }
    } else {
      CarrierWraps(OpText(op), w, x, y);
    }
  }

  lemma DivByMinusOne(x: int)
    ensures TruncDiv(x, -1) == -x && TruncMod(x, -1) == 0
  {
    assert x >= 0 ==> x / -1 == -x;
  }

  // ---- operators ----

  lemma ComparisonAgrees(op: BinOp, s: CType, x: int, t: CType, y: int)
    requires IsComparison(op) && Plain(s) && Plain(t) && Holds(s, x) && Holds(t, y)
    ensures CastC(CByte, ApplyC(OpText(op), s, x, t, y)) == CVal(CByte, B(Compare(op, x, y)))
  {
    PlainOperands(s, x, t, y);
    ConvertHeld(CByte, 0);
    ConvertHeld(CByte, 1);
  }

  lemma BoolBits(x: int, y: int)
    requires 0 <= x <= 1 && 0 <= y <= 1
    ensures BitAnd(x, y) == B(x == 1 && y == 1) && BitOr(x, y) == B(x == 1 || y == 1)
  {
    assert BitAnd(0, 0) == 0;
    assert BitAnd(-1, -1) == -1 && BitAnd(-2, -1) == -2 && BitAnd(-1, -2) == -2 && BitAnd(-2, -2) == -2;
  }

  lemma BitwiseApplied(op: BinOp, s: CType, x: int, t: CType, y: int)
    requires (op.And? || op.Or?) && Plain(s) && Plain(t) && Holds(s, x) && Holds(t, y)
    ensures ApplyC(OpText(op), s, x, t, y) == CVal(Common(s, t), if op.And? then BitAnd(x, y) else BitOr(x, y))
  {
    PlainOperands(s, x, t, y);
  }

  lemma CastHeld(to: CType, c: CVal)
    requires c.CVal? && Holds(to, c.v)
    ensures CastC(to, c) == CVal(to, c.v)
  {
    ConvertHeld(to, c.v);
  }

  lemma BitwiseAgrees(op: BinOp, s: CType, x: int, t: CType, y: int, to: CType)
    requires (op.And? || op.Or?) && Plain(s) && Plain(t) && Holds(s, x) && Holds(t, y)
    requires Holds(to, if op.And? then BitAnd(x, y) else BitOr(x, y))
    ensures CastC(to, ApplyC(OpText(op), s, x, t, y)) == CVal(to, if op.And? then BitAnd(x, y) else BitOr(x, y))
  {
    BitwiseApplied(op, s, x, t, y);
    CastHeld(to, ApplyC(OpText(op), s, x, t, y));
  }

  lemma CastEval(t: CType, e: CExpr, st: CStore)
    ensures CEval(CCast(t, e), st) == CastC(t, CEval(e, st))
  {
  }

  lemma BinEval(op: COp, a: CExpr, b: CExpr, st: CStore)
    requires CEval(a, st).CVal? && CEval(b, st).CVal?
    ensures var x, y := CEval(a, st), CEval(b, st);
            CEval(CBin(op, a, b), st) == ApplyC(op, x.ty, x.v, y.ty, y.v)
  {
  }

  /** A cast to a width that holds the value is the value. */
  lemma CastOperand(w: Width, e: CExpr, st: CStore, x: int)
    requires Agrees(CEval(e, st), Val(x)) && Fits(w, x)
    ensures CEval(CCast(CSigned(w), e), st) == CVal(CSigned(w), x)
  {
    WrapFits(w, x);
  }

  lemma IntegerAgrees(op: BinOp, l: CE, r: CE, st: CStore, x: int, y: int)
    requires !op.AndThen? && !op.RDiv? && l.ty.TInt? && r.ty.TInt?
    requires InTy(l.ty, x) && InTy(r.ty, y)
    requires Agrees(CEval(l.c, st), Val(x)) && Agrees(CEval(r.c, st), Val(y))
    ensures Agrees(CEval(GenBinary(op, l, r).value.c, st), ApplyBin(op, l.ty, r.ty, x, y))
  {
    var w := Wider(l.ty.w, r.ty.w);
    var a, b := CCast(CSigned(w), l.c), CCast(CSigned(w), r.c);
    CastOperand(w, l.c, st, x);
    CastOperand(w, r.c, st, y);
    if IsArithmetic(op) {
      IntegerHelper(op, w, a, b, st, x, y);
    } else {
      BinEval(OpText(op), a, b, st);
      if IsComparison(op) {
        CastEval(CByte, CBin(OpText(op), a, b), st);
        ComparisonAgrees(op, CSigned(w), x, CSigned(w), y);
      } else {
        CastEval(CSigned(w), CBin(OpText(op), a, b), st);
        BitwiseFits(w, x, y);
        BitwiseAgrees(op, CSigned(w), x, CSigned(w), y, CSigned(w));
      }
    }
  }

  lemma IntegerHelper(op: BinOp, w: Width, a: CExpr, b: CExpr, st: CStore, x: int, y: int)
    requires IsArithmetic(op) && Fits(w, x) && Fits(w, y)
    requires CEval(a, st) == CVal(CSigned(w), x) && CEval(b, st) == CVal(CSigned(w), y)
    ensures Agrees(CEval(CHelp(HelperFor(op), w, a, b), st), Arith(op, w, x, y))
  {
    WrapFits(w, x);
    WrapFits(w, y);
    HelperIsArith(op, w, x, y);
  }

  lemma CharAgrees(op: BinOp, l: CE, r: CE, st: CStore, x: int, y: int)
    requires IsComparison(op) && l.ty.TChar? && r.ty.TChar?
    requires Agrees(CEval(l.c, st), Val(x)) && Agrees(CEval(r.c, st), Val(y))
    ensures Agrees(CEval(GenBinary(op, l, r).value.c, st), ApplyBin(op, l.ty, r.ty, x, y))
  {
    var a, b := CCast(CSigned(W8), l.c), CCast(CSigned(W8), r.c);
    BinEval(OpText(op), a, b, st);
    CastEval(CByte, CBin(OpText(op), a, b), st);
    ComparisonAgrees(op, CSigned(W8), Wrap(W8, x), CSigned(W8), Wrap(W8, y));
  }

  /** BOOLEAN and enumeration operands are used without casts. */
  lemma UncastAgrees(op: BinOp, l: CE, r: CE, st: CStore, x: int, y: int)
    requires !op.AndThen? && BinType(op, l.ty, r.ty).Some? && (l.ty.TBool? || l.ty.TEnum?)
    requires InTy(l.ty, x) && InTy(r.ty, y)
    requires Agrees(CEval(l.c, st), Val(x)) && Agrees(CEval(r.c, st), Val(y))
    ensures Agrees(CEval(GenBinary(op, l, r).value.c, st), ApplyBin(op, l.ty, r.ty, x, y))
  {
    var p, q := CEval(l.c, st), CEval(r.c, st);
    BinEval(OpText(op), l.c, r.c, st);
    CastEval(CByte, CBin(OpText(op), l.c, r.c), st);
    if IsComparison(op) {
      ComparisonAgrees(op, p.ty, x, q.ty, y);
    } else {
      BoolBits(x, y);
      BitwiseAgrees(op, p.ty, x, q.ty, y, CByte);
    }
  }

  /** One eager binary node, given agreeing operands. */
  lemma BinaryAgrees(op: BinOp, l: CE, r: CE, st: CStore, x: int, y: int)
    requires !op.AndThen? && BinType(op, l.ty, r.ty).Some?
    requires InTy(l.ty, x) && InTy(r.ty, y)
    requires Agrees(CEval(l.c, st), Val(x)) && Agrees(CEval(r.c, st), Val(y))
    ensures GenBinary(op, l, r).Some?
    ensures Agrees(CEval(GenBinary(op, l, r).value.c, st), ApplyBin(op, l.ty, r.ty, x, y))
  {
    if l.ty.TInt? { IntegerAgrees(op, l, r, st, x, y); }
    else if l.ty.TChar? { CharAgrees(op, l, r, st, x, y); }
    else { UncastAgrees(op, l, r, st, x, y); }
  }

  lemma AndThenAgrees(l: CExpr, r: CExpr, st: CStore, x: Value, y: Value)
    requires Agrees(CEval(l, st), x) && (x.Val? ==> 0 <= x.v <= 1)
    requires x.Val? && x.v == 1 ==> Agrees(CEval(r, st), y) && (y.Val? ==> 0 <= y.v <= 1)
    ensures Agrees(CEval(CCast(CByte, CAndAnd(l, r)), st),
                   if x.DivByZero? then x else if x.v == 0 then Val(0) else y)
  {
    ConvertHeld(CByte, 0);
    ConvertHeld(CByte, 1);
  }

  lemma NegAgrees(v: CE, st: CStore, x: int)
    requires v.ty.TInt? && InTy(v.ty, x) && Agrees(CEval(v.c, st), Val(x))
    ensures Agrees(CEval(GenUnary(Neg, v).value.c, st), Val(ApplyUn(Neg, v.ty, x)))
  {
    CastOperand(v.ty.w, v.c, st, x);
    WrapFits(v.ty.w, x);
    CarrierWraps(CSub, v.ty.w, 0, x);
  }

  lemma TildeEval(e: CExpr, st: CStore, x: int)
    requires Agrees(CEval(e, st), Val(x))
    ensures CEval(CTilde(e), st).CVal? && CEval(CTilde(e), st).v == BitNot(x)
  {
    var p := Promote(CEval(e, st).ty);
    assert p.CSigned? && Holds(p, x);
    ConvertHeld(p, x);
    assert Holds(p, BitNot(x));
    ConvertHeld(p, BitNot(x));
  }

  lemma ComplementAgrees(v: CE, st: CStore, x: int)
    requires v.ty.TInt? && InTy(v.ty, x) && Agrees(CEval(v.c, st), Val(x))
    ensures Agrees(CEval(GenUnary(Not, v).value.c, st), Val(BitNot(x)))
  {
    TildeEval(v.c, st, x);
    CastEval(CSigned(v.ty.w), CTilde(v.c), st);
    ConvertHeld(CSigned(v.ty.w), BitNot(x));
  }

  lemma UnaryAgrees(op: UnOp, v: CE, st: CStore, x: int)
    requires v.ty.TInt? || (op.Not? && v.ty.TBool?)
    requires InTy(v.ty, x) && Agrees(CEval(v.c, st), Val(x))
    ensures GenUnary(op, v).Some?
    ensures Agrees(CEval(GenUnary(op, v).value.c, st), Val(ApplyUn(op, v.ty, x)))
  {
    if v.ty.TBool? {
      CastEval(CByte, CBang(v.c), st);
      ConvertHeld(CByte, 0);
      ConvertHeld(CByte, 1);
    } else if op.Neg? {
      NegAgrees(v, st, x);
    } else {
      ComplementAgrees(v, st, x);
    }
  }

  lemma LiteralAgrees(v: int, st: CStore)
    requires Fits(W64, v)
    ensures Agrees(CEval(IntLiteral(v), st), Val(v))
  {
  }

  lemma ByteAgrees(v: int, st: CStore)
    requires 0 <= v < 256
    ensures Agrees(CEval(ByteLiteral(v), st), Val(v))
  {
    ConvertHeld(CByte, v);
  }

  lemma RetypeAgrees(to: Ty, a: CExpr, st: CStore, x: Value)
    requires !to.TBool? && Agrees(CEval(a, st), x)
    ensures Agrees(CEval(CCast(CTypeOf(to), a), st), if x.Val? then Val(Retyped(to, x.v)) else x)
  {
  }

  lemma OrdAgrees(v: CE, st: CStore, x: Value)
    requires OrdType(v.ty).Some? && Agrees(CEval(v.c, st), x) && (x.Val? ==> InTy(v.ty, x.v))
    ensures GenOrd(v).Some? && GenOrd(v).value.ty == OrdType(v.ty).value
    ensures Agrees(CEval(GenOrd(v).value.c, st), x)
  {
    if x.Val? {
      if v.ty.TEnum? {
        ConvertHeld(CSigned(W32), x.v);
      } else if !v.ty.TInt? {
        ConvertHeld(CByte, x.v);
        ConvertHeld(CSigned(W16), x.v);
      }
    }
  }

  /** The emitter accepts an expression exactly when it is well typed, and
      gives it that type. */
  lemma {:induction false} AcceptsTyped(env: Env, e: Expr)
    ensures GenExpr(env, e).Some? <==> TypeOf(env, e).Some?
    ensures GenExpr(env, e).Some? ==> GenExpr(env, e).value.ty == TypeOf(env, e).value
  {
    match e
    case EInt(_) =>
    case EChar(_) =>
    case EName(_) =>
    case EBin(_, a, b) => AcceptsTyped(env, a); AcceptsTyped(env, b);
    case EUn(_, a) => AcceptsTyped(env, a);
    case EOrd(a) => AcceptsTyped(env, a);
    case EChr(a) => AcceptsTyped(env, a);
    case ERetype(_, a) => AcceptsTyped(env, a);
  }

  /** Main result for expressions: in every store, the emitted C evaluates to
      the Pascal value, wrapped where Pascal wraps, and aborts exactly when an
      evaluated Pascal operation divides by zero. It is never undefined. */
  lemma {:induction false} ExprPreserved(env: Env, s: Store, st: CStore, e: Expr)
    requires EnvOk(env) && StoreOk(env, s) && Mirrors(env, s, st)
    requires TypeOf(env, e).Some?
    ensures GenExpr(env, e).Some? && GenExpr(env, e).value.ty == TypeOf(env, e).value
    ensures Agrees(CEval(GenExpr(env, e).value.c, st), Eval(env, s, e))
  {
    hide Wrap, Low, BitAnd, BitOr, BitNot, Arith, EnvOk, Mirrors, CEval, Agrees;
    AcceptsTyped(env, e);
    match e
    case EInt(v) => LiteralAgrees(v, st);
    case EChar(c) => ByteAgrees(c, st);
    case EName(x) => NameAgrees(env, s, st, x);
    case EBin(op, a, b) =>
      ExprPreserved(env, s, st, a);
      ExprPreserved(env, s, st, b);
      EvalInTy(env, s, a);
      EvalInTy(env, s, b);
      BinNodeAgrees(env, s, st, op, a, b);
    case EUn(op, a) =>
      ExprPreserved(env, s, st, a);
      OperatorNodeAgrees(env, s, st, op, a);
    case EOrd(a) =>
      ExprPreserved(env, s, st, a);
      UnaryNodeAgrees(env, s, st, e, a);
    case EChr(a) =>
      ExprPreserved(env, s, st, a);
      UnaryNodeAgrees(env, s, st, e, a);
    case ERetype(_, a) =>
      ExprPreserved(env, s, st, a);
      UnaryNodeAgrees(env, s, st, e, a);
  }

  lemma OperatorNodeAgrees(env: Env, s: Store, st: CStore, op: UnOp, a: Expr)
    requires EnvOk(env) && StoreOk(env, s) && TypeOf(env, EUn(op, a)).Some? && GenExpr(env, EUn(op, a)).Some?
    requires GenExpr(env, a).Some? && TypeOf(env, a).Some? && GenExpr(env, a).value.ty == TypeOf(env, a).value
    requires Agrees(CEval(GenExpr(env, a).value.c, st), Eval(env, s, a))
    ensures Agrees(CEval(GenExpr(env, EUn(op, a)).value.c, st), Eval(env, s, EUn(op, a)))
  {
    hide Wrap, Low, BitNot, ApplyUn, Convert, EnvOk;
    EvalInTy(env, s, a);
    var x, v := Eval(env, s, a), GenExpr(env, a).value;
    if x.Val? { UnaryAgrees(op, v, st, x.v); }
  }

  /** The builtins with one operand. */
  lemma UnaryNodeAgrees(env: Env, s: Store, st: CStore, e: Expr, a: Expr)
    requires EnvOk(env) && StoreOk(env, s) && TypeOf(env, e).Some? && GenExpr(env, e).Some?
    requires (e.EOrd? || e.EChr? || e.ERetype?) && e.a == a
    requires GenExpr(env, a).Some? && TypeOf(env, a).Some? && GenExpr(env, a).value.ty == TypeOf(env, a).value
    requires Agrees(CEval(GenExpr(env, a).value.c, st), Eval(env, s, a))
    ensures Agrees(CEval(GenExpr(env, e).value.c, st), Eval(env, s, e))
  {
    hide Wrap, Low, BitAnd, BitOr, BitNot, Arith, EnvOk, Mirrors;
    EvalInTy(env, s, a);
    var x, v := Eval(env, s, a), GenExpr(env, a).value;
    match e
    case EOrd(_) => OrdAgrees(v, st, x);
    case EChr(_) => RetypeAgrees(TChar, v.c, st, x);
    case ERetype(to, _) => RetypeAgrees(to, v.c, st, x);
  }

  lemma NameAgrees(env: Env, s: Store, st: CStore, x: string)
    requires EnvOk(env) && StoreOk(env, s) && Mirrors(env, s, st) && x in env
    requires GenExpr(env, EName(x)).Some?
    ensures Agrees(CEval(GenExpr(env, EName(x)).value.c, st), Eval(env, s, EName(x)))
  {
    if env[x].SConst? {
      LiteralAgrees(env[x].v, st);
      if env[x].ty.TBool? || env[x].ty.TChar? { ByteAgrees(env[x].v, st); }
    }
  }

  lemma BinNodeAgrees(env: Env, s: Store, st: CStore, op: BinOp, a: Expr, b: Expr)
    requires EnvOk(env) && StoreOk(env, s) && TypeOf(env, EBin(op, a, b)).Some?
    requires GenExpr(env, a).Some? && GenExpr(env, a).value.ty == TypeOf(env, a).value
    requires GenExpr(env, b).Some? && GenExpr(env, b).value.ty == TypeOf(env, b).value
    requires Eval(env, s, a).Val? ==> InTy(TypeOf(env, a).value, Eval(env, s, a).v)
    requires Eval(env, s, b).Val? ==> InTy(TypeOf(env, b).value, Eval(env, s, b).v)
    requires Agrees(CEval(GenExpr(env, a).value.c, st), Eval(env, s, a))
    requires Agrees(CEval(GenExpr(env, b).value.c, st), Eval(env, s, b))
    ensures GenExpr(env, EBin(op, a, b)).Some?
    ensures Agrees(CEval(GenExpr(env, EBin(op, a, b)).value.c, st), Eval(env, s, EBin(op, a, b)))
  {
    AcceptsTyped(env, EBin(op, a, b));
    var l, r := GenExpr(env, a).value, GenExpr(env, b).value;
    var x, y := Eval(env, s, a), Eval(env, s, b);
    if op.AndThen? {
      AndThenAgrees(l.c, r.c, st, x, y);
    } else if x.Val? && y.Val? {
      BinaryAgrees(op, l, r, st, x.v, y.v);
    } else {
      Propagates(op, l, r, st);
    }
  }

  /** Integer AND and OR, bit by bit: bit i of the C value is that of both, or
      of either, operand. */
  lemma EmittedBits(op: BinOp, l: CE, r: CE, st: CStore, x: int, y: int, i: nat)
    requires (op.And? || op.Or?) && l.ty.TInt? && r.ty.TInt? && InTy(l.ty, x) && InTy(r.ty, y)
    requires Agrees(CEval(l.c, st), Val(x)) && Agrees(CEval(r.c, st), Val(y))
    ensures GenBinary(op, l, r).Some?
    ensures var c := CEval(GenBinary(op, l, r).value.c, st);
            c.CVal? && (Bit(c.v, i) == 1 <==> if op.And? then Bit(x, i) == 1 && Bit(y, i) == 1 else Bit(x, i) == 1 || Bit(y, i) == 1)
  {
    hide CEval, BitAnd, BitOr, Bit;
    IntegerAgrees(op, l, r, st, x, y);
    BitLaws(x, y, i);
  }

  /** An aborting operand aborts every eager operator. */
  lemma Propagates(op: BinOp, l: CE, r: CE, st: CStore)
    requires !op.AndThen? && GenBinary(op, l, r).Some?
    requires CEval(l.c, st).CAbort? || (CEval(l.c, st).CVal? && CEval(r.c, st).CAbort?)
    ensures CEval(GenBinary(op, l, r).value.c, st).CAbort?
  {
    var t := if l.ty.TInt? then CSigned(Wider(l.ty.w, r.ty.w)) else CSigned(W8);
    var a, b := CCast(t, l.c), CCast(t, r.c);
    CastEval(t, l.c, st);
    CastEval(t, r.c, st);
    assert CEval(CBin(OpText(op), a, b), st).CAbort?;
    assert CEval(CBin(OpText(op), l.c, r.c), st).CAbort?;
  }
}
