/** What each elaborated node means in terms of its elaborated operands: the
    simplifications made on the way do not show. */
module ElabMeaning {
  import opened Logic4
  import opened VecOps
  import opened NetExprs
  import opened WidthTest

  /** Widest operand that takes its width from the context of `e`. */
  function NeedWidth(e: Expr): nat
  {
    match e
    case Number(_) => 1
    case Operand(_, w, _, _) => w
    case Binary(_, l, r) => Max(NeedWidth(l), NeedWidth(r))
    case Compare(_, _, _) => 1
    case LeftWidth(_, l, _) => NeedWidth(l)
    case Ternary(_, l, r) => Max(NeedWidth(l), NeedWidth(r))
    case Unary(_, x) => NeedWidth(x)
    case Reduction(_, _) => 1
  }

  /** The right operand of a shift or power, elaborated for itself. */
  function RightSelf(r: Expr, a: Ann): NetExpr { Elaborate(r, a.R(), a.R().S(), a.R().W()) }

  /** The tree built at width `w` and sign `s` has exactly that width and sign. */
  lemma {:induction false} ElaboratedShape(e: Expr, a: Ann, s: bool, w: nat)
    requires NeedWidth(e) <= w && 0 < w
    ensures Elaborate(e, a, s, w).Width() == w && Elaborate(e, a, s, w).signed == s
    decreases e
  {
    hide Eval, TestWidth, ElaborateSelf, EvalExpr, MakeShift, MakeMult, MakeTernary, MakeUnary;
    match e {
      case Binary(_, l, r) =>
        ElaboratedShape(l, a.L(), s, w);
        ElaboratedShape(r, a.R(), s, w);
        MultShape(Elaborate(l, a.L(), s, w), Elaborate(r, a.R(), s, w), w, s);
      case LeftWidth(op, l, r) =>
        ElaboratedShape(l, a.L(), s, w);
        var lp := EvalExpr(Elaborate(l, a.L(), s, w));
        EvalExprSame(Elaborate(l, a.L(), s, w), NoSignals);
        if op.Shift? { ShiftShape(op.op, lp, EvalExpr(AsUnsigned(RightSelf(r, a))), w, s); }
      case Ternary(c, l, r) =>
        ElaboratedShape(l, a.L(), s, w);
        ElaboratedShape(r, a.R(), s, w);
        EvalExprSame(Elaborate(l, a.L(), s, w), NoSignals);
        EvalExprSame(Elaborate(r, a.R(), s, w), NoSignals);
        var lp, rp := EvalExpr(Elaborate(l, a.L(), s, w)), EvalExpr(Elaborate(r, a.R(), s, w));
        TernaryShape(ConditionReduce(ElaborateSelf(c)), lp, rp, w, s);
      case Unary(op, x) =>
        ElaboratedShape(x, a.L(), s, w);
        UnaryShape(op, Elaborate(x, a.L(), s, w), w, s);
      case _ =>
    }
  }

  lemma MeaningOperand(id: nat, wid: nat, sg: bool, two: bool, a: Ann, s: bool, w: nat, env: Env)
    ensures Eval(Elaborate(Operand(id, wid, sg, two), a, s, w), env) == Pad(ReadSignal(env(id), wid, two), w, s)
  {
    hide Eval;
    EvalSignal(id, wid, sg, two, env);
    PadToWidthMeaning(NSignal(id, wid, sg, two), w, s, env);
  }

  lemma MeaningBinary(op: BinOp, l: Expr, r: Expr, a: Ann, s: bool, w: nat, env: Env)
    requires Max(NeedWidth(l), NeedWidth(r)) <= w && 0 < w
    ensures Elaborate(l, a.L(), s, w).Width() == w == Elaborate(r, a.R(), s, w).Width()
    ensures Eval(Elaborate(Binary(op, l, r), a, s, w), env)
         == VecBinary(op, Eval(Elaborate(l, a.L(), s, w), env), Eval(Elaborate(r, a.R(), s, w), env), s)
  {
    hide Eval, VecBinary;
    ElaboratedShape(l, a.L(), s, w);
    ElaboratedShape(r, a.R(), s, w);
    var lp, rp := Elaborate(l, a.L(), s, w), Elaborate(r, a.R(), s, w);
    if op.Mul? { MakeMultMeaning(lp, rp, w, s, env); } else { EvalBinary(op, lp, rp, w, s, env); }
  }

  lemma MeaningShift(op: ShiftOp, l: Expr, r: Expr, a: Ann, s: bool, w: nat, env: Env)
    requires NeedWidth(l) <= w && 0 < w <= ULONG_MAX
    ensures Eval(Elaborate(LeftWidth(Shift(op), l, r), a, s, w), env)
         == VecShift(op, Eval(Elaborate(l, a.L(), s, w), env), Eval(RightSelf(r, a), env), s)
  {
    hide Eval, VecShift, MakeShift, EvalExpr;
    ElaboratedShape(l, a.L(), s, w);
    var lp, rp := Elaborate(l, a.L(), s, w), RightSelf(r, a);
    EvalExprSame(lp, env);
    EvalExprSame(AsUnsigned(rp), env);
    EvalPad(rp, rp.Width(), false, env);
    MakeShiftMeaning(op, EvalExpr(lp), EvalExpr(AsUnsigned(rp)), w, s, env);
  }

  lemma MeaningPower(l: Expr, r: Expr, a: Ann, s: bool, w: nat, env: Env)
    requires NeedWidth(l) <= w && 0 < w
    ensures Eval(Elaborate(LeftWidth(Power, l, r), a, s, w), env)
         == VecPower(Eval(Elaborate(l, a.L(), s, w), env), s, Eval(RightSelf(r, a), env), RightSelf(r, a).signed)
  {
    hide Eval, VecPower, EvalExpr;
    ElaboratedShape(l, a.L(), s, w);
    var lp, rp := Elaborate(l, a.L(), s, w), RightSelf(r, a);
    EvalExprSame(lp, env);
    EvalExprSame(rp, env);
    EvalPower(EvalExpr(lp), EvalExpr(rp), w, s, env);
  }

  lemma MeaningTernary(c: Expr, l: Expr, r: Expr, a: Ann, s: bool, w: nat, env: Env)
    requires Max(NeedWidth(l), NeedWidth(r)) <= w && 0 < w
    ensures Elaborate(l, a.L(), s, w).Width() == w == Elaborate(r, a.R(), s, w).Width()
    ensures Eval(Elaborate(Ternary(c, l, r), a, s, w), env)
         == VecTernary(Truth(Eval(ElaborateSelf(c), env)),
                       Eval(Elaborate(l, a.L(), s, w), env), Eval(Elaborate(r, a.R(), s, w), env))
  {
    hide Eval, VecTernary, EvalExpr, Elaborate, ElaborateSelf, ConditionReduce, MakeTernary;
    UnfoldTernary(c, l, r, a, s, w);
    ElaboratedShape(l, a.L(), s, w);
    ElaboratedShape(r, a.R(), s, w);
    var tru, fal := Elaborate(l, a.L(), s, w), Elaborate(r, a.R(), s, w);
    EvalExprSame(tru, env);
    EvalExprSame(fal, env);
    ConditionReduceMeaning(ElaborateSelf(c), env);
    MakeTernaryMeaning(ConditionReduce(ElaborateSelf(c)), EvalExpr(tru), EvalExpr(fal), w, s, env);
  }

  lemma MeaningUnary(op: UnOp, x: Expr, a: Ann, s: bool, w: nat, env: Env)
    requires NeedWidth(x) <= w && 0 < w
    ensures Eval(Elaborate(Unary(op, x), a, s, w), env) == VecUnary(op, Eval(Elaborate(x, a.L(), s, w), env))
  {
    hide Eval;
    ElaboratedShape(x, a.L(), s, w);
    var ip := Elaborate(x, a.L(), s, w);
    EvalUnary(op, ip, w, s, env);
    if ip.NConst? {
      EvalConst(ip.bits, ip.signed, env);
      EvalConst(VecUnary(op, ip.bits), s, env);
    }
  }

  lemma MeaningReduction(op: RedOp, x: Expr, a: Ann, s: bool, w: nat, env: Env)
    ensures Eval(Elaborate(Reduction(op, x), a, s, w), env)
         == Pad([Reduce(op, Eval(Elaborate(x, a.L(), a.L().S(), a.L().W()), env))], w, s)
  {
    hide Eval, Reduce;
    var ip := Elaborate(x, a.L(), a.L().S(), a.L().W());
    EvalReduce(op, ip, false, env);
    if ip.NConst? {
      EvalConst(ip.bits, ip.signed, env);
      EvalConst([Reduce(LogNot, ip.bits)], false, env);
    }
    PadToWidthMeaning(MakeReduce(op, ip), w, s, env);
  }

  lemma MeaningCompare(op: CmpOp, l: Expr, r: Expr, a: Ann, s: bool, w: nat, env: Env)
    requires Max(NeedWidth(l), NeedWidth(r)) <= a.LW() == a.RW() && 0 < a.LW()
    ensures var both, u := a.L().S() && a.R().S(), a.LW();
      && Elaborate(l, a.L(), both, u).Width() == u == Elaborate(r, a.R(), both, u).Width()
      && Eval(Elaborate(Compare(op, l, r), a, s, w), env)
         == Pad([VecCompare(op, Eval(Elaborate(l, a.L(), both, u), env),
                            Eval(Elaborate(r, a.R(), both, u), env), both)], w, s)
  {
    hide Eval, VecCompare, EvalExpr;
    var both, u := a.L().S() && a.R().S(), a.LW();
    ElaboratedShape(l, a.L(), both, u);
    ElaboratedShape(r, a.R(), both, u);
    var lp, rp := Elaborate(l, a.L(), both, u), Elaborate(r, a.R(), both, u);
    EvalExprSame(lp, env);
    EvalExprSame(rp, env);
    EvalCompare(op, EvalExpr(lp), EvalExpr(rp), false, env);
    PadToWidthMeaning(NCompare(op, EvalExpr(lp), EvalExpr(rp), false), w, s, env);
  }
}
