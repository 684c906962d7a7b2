/** Expressions of well-determined size elaborate to what sections 5.4.1, 5.5.1 and 5.5.2 of
    IEEE Std 1364-2005 prescribe. The rules are stated here on their own, without the two
    passes, and the passes are proved to implement them. */
module Standard {
  import opened Logic4
  import opened VecOps
  import opened NetExprs
  import opened WidthTest
  import opened ElabMeaning
  import opened Coherence

  /** Table 5-22: the bit length of an expression. */
  function StdWidth(e: Expr): nat
  {
    match e
    case Number(lit) => if lit.IsUnsized() then Max(INTEGER_WIDTH, |lit.bits|) else |lit.bits|
    case Operand(_, w, _, _) => w
    case Binary(_, l, r) => Max(StdWidth(l), StdWidth(r))
    case Compare(_, _, _) => 1
    case LeftWidth(_, l, _) => StdWidth(l)
    case Ternary(_, l, r) => Max(StdWidth(l), StdWidth(r))
    case Unary(_, x) => StdWidth(x)
    case Reduction(_, _) => 1
  }

  // ----- literals -----

  predicate Unknown(b: V) { !IsDefinedBit(b) }

  /** Section 3.5.1: an unsized number has at least the bits of an integer, filled with zeros, or with x or z
      after a leading x or z. */
  function StdDigits(lit: Literal): (v: Vec)
    ensures |v| == if lit.IsUnsized() then Max(INTEGER_WIDTH, |lit.bits|) else |lit.bits|
  {
    var top := SignBit(lit.bits);
    if lit.IsUnsized() && |lit.bits| < INTEGER_WIDTH
    then lit.bits + Fill(if Unknown(top) then top else V0, INTEGER_WIDTH - |lit.bits|)
    else lit.bits
  }

  /** The number at width `w`: extended by the type that is pushed down; a '0 or '1 repeats its digit, and an
      unsized unsigned number with a leading x or z repeats that. */
  function StdLiteral(lit: Literal, w: nat, s: bool): (v: Vec)
    ensures |v| == w
  {
    var digits, top := StdDigits(lit), SignBit(lit.bits);
    var fill :=
      if lit.isSingle || (lit.IsUnsized() && !lit.hasSign && Unknown(top)) then top
      else if s then SignBit(digits) else V0;
    if w <= |digits| then digits[..w] else digits + Fill(fill, w - |digits|)
  }

  /** When the elaborator extends a literal as the standard does: an unsized signed one only if its leading digit
      bit is 0, or nothing is filled in that depends on it. */
  predicate LiteralAlike(lit: Literal, w: nat, s: bool)
  {
    var n, top := |lit.bits|, SignBit(lit.bits);
    || !lit.IsUnsized() || top == V0
    || (top == V1 && if n < INTEGER_WIDTH then !lit.hasSign else w <= n || lit.hasSign == s)
    || (Unknown(top) && (!lit.hasSign || s || w <= Max(INTEGER_WIDTH, n)))
  }

  /** Main result: a literal is elaborated to the standard's vector exactly then. */
  lemma LiteralIsStandard(lit: Literal, w: nat, s: bool)
    requires |lit.bits| > 0 && w >= |StdDigits(lit)|
    ensures CastNumber(lit, w, s) == StdLiteral(lit, w, s) <==> LiteralAlike(lit, w, s)
  {
    var n, top := |lit.bits|, SignBit(lit.bits);
    var a, b := CastNumber(lit, w, s), StdLiteral(lit, w, s);
    assert forall i :: 0 <= i < n ==> a[i] == b[i] == lit.bits[i];
    if w > n {
      assert forall i :: n <= i < w ==> a[i] == a[w - 1];
      var m := |StdDigits(lit)|;
      assert forall i :: m <= i < w ==> b[i] == b[w - 1];
      assert forall i :: n <= i < m ==> b[i] == if Unknown(top) then top else V0;
    }
    if LiteralAlike(lit, w, s) {
      forall i | 0 <= i < w ensures a[i] == b[i] {}
    } else {
      var k := if top == V1 then n else w - 1;
      assert a[k] != b[k];
    }
  }

  /** `'shF`: four signed digit bits of 1 are extended with ones, where the standard has zeros up to an integer. */
  lemma SignedHexLiteral(s: bool)
    ensures var lit := Literal([V1, V1, V1, V1], false, true, false);
      CastNumber(lit, INTEGER_WIDTH, s) == Fill(V1, INTEGER_WIDTH) != StdLiteral(lit, INTEGER_WIDTH, s)
  {
    var lit := Literal([V1, V1, V1, V1], false, true, false);
    assert CastNumber(lit, INTEGER_WIDTH, s)[4] == V1;
    LiteralIsStandard(lit, INTEGER_WIDTH, s);
  }

  // ----- evaluation -----

  /** Section 5.5.2: the type and size of the expression are pushed down to its
      context-determined operands, which are extended; other operands stand for themselves. */
  function StdEval(e: Expr, s: bool, w: nat, env: Env): (v: Vec)
    requires NeedWidth(e) <= w
    ensures |v| == w
    decreases e, 0
  {
    match e
    case Number(lit) => StdLiteral(lit, w, s)
    case Operand(id, wid, _, two) => Pad(ReadSignal(env(id), wid, two), w, s)
    case Binary(op, l, r) => VecBinary(op, StdEval(l, s, w, env), StdEval(r, s, w, env), s)
    case Compare(op, l, r) =>
      var u := Max(Max(StdWidth(l), StdWidth(r)), 1);
      NeedWithin(l); NeedWithin(r);
      Pad([VecCompare(op, StdEval(l, SignOf(l) && SignOf(r), u, env),
                          StdEval(r, SignOf(l) && SignOf(r), u, env), SignOf(l) && SignOf(r))], w, s)
    case LeftWidth(Shift(op), l, r) => VecShift(op, StdEval(l, s, w, env), StdSelf(r, env), s)
    case LeftWidth(Power, l, r) => VecPower(StdEval(l, s, w, env), s, StdSelf(r, env), SignOf(r))
    case Ternary(c, l, r) =>
      VecTernary(Truth(StdSelf(c, env)), StdEval(l, s, w, env), StdEval(r, s, w, env))
    case Unary(op, x) => VecUnary(op, StdEval(x, s, w, env))
    case Reduction(op, x) => Pad([Reduce(op, StdSelf(x, env))], w, s)
  }

  /** An expression with no context. */
  function StdSelf(e: Expr, env: Env): Vec
    decreases e, 1
  {
    NeedWithin(e);
    StdEval(e, SignOf(e), Max(StdWidth(e), 1), env)
  }

  /** Every literal of `e` is extended as the standard does, at the width and sign it gets there. */
  predicate LiteralsAlike(e: Expr, s: bool, w: nat)
    decreases e, 0
  {
    match e
    case Number(lit) => LiteralAlike(lit, w, s)
    case Operand(_, _, _, _) => true
    case Binary(_, l, r) => LiteralsAlike(l, s, w) && LiteralsAlike(r, s, w)
    case Compare(_, l, r) =>
      var u := Max(Max(StdWidth(l), StdWidth(r)), 1);
      LiteralsAlike(l, SignOf(l) && SignOf(r), u) && LiteralsAlike(r, SignOf(l) && SignOf(r), u)
    case LeftWidth(_, l, r) => LiteralsAlike(l, s, w) && SelfAlike(r)
    case Ternary(c, l, r) => SelfAlike(c) && LiteralsAlike(l, s, w) && LiteralsAlike(r, s, w)
    case Unary(_, x) => LiteralsAlike(x, s, w)
    case Reduction(_, x) => SelfAlike(x)
  }

  predicate SelfAlike(e: Expr)
    decreases e, 1
  { LiteralsAlike(e, SignOf(e), Max(StdWidth(e), 1)) }

  /** No unsized signed literal has a leading digit bit other than 0: decimal numbers, and based ones without `s`. */
  predicate PlainLiterals(e: Expr)
  {
    match e
    case Number(lit) => lit.IsUnsized() && lit.hasSign ==> SignBit(lit.bits) == V0
    case Operand(_, _, _, _) => true
    case Binary(_, l, r) => PlainLiterals(l) && PlainLiterals(r)
    case Compare(_, l, r) => PlainLiterals(l) && PlainLiterals(r)
    case LeftWidth(_, l, r) => PlainLiterals(l) && PlainLiterals(r)
    case Ternary(c, l, r) => PlainLiterals(c) && PlainLiterals(l) && PlainLiterals(r)
    case Unary(_, x) => PlainLiterals(x)
    case Reduction(_, x) => PlainLiterals(x)
  }

  /** Such an expression, without oversized literals, is extended as the standard does in every context. */
  lemma {:induction false} PlainIsAlike(e: Expr, s: bool, w: nat)
    requires WellSized(e) && PlainLiterals(e)
    ensures LiteralsAlike(e, s, w) && SelfAlike(e)
    decreases e
  {
    match e {
      case Binary(_, l, r) =>
        PlainIsAlike(l, s, w);
        PlainIsAlike(r, s, w);
        PlainIsAlike(l, SignOf(e), Max(StdWidth(e), 1));
        PlainIsAlike(r, SignOf(e), Max(StdWidth(e), 1));
      case Compare(_, l, r) =>
        PlainIsAlike(l, SignOf(l) && SignOf(r), Max(Max(StdWidth(l), StdWidth(r)), 1));
        PlainIsAlike(r, SignOf(l) && SignOf(r), Max(Max(StdWidth(l), StdWidth(r)), 1));
      case LeftWidth(_, l, r) =>
        PlainIsAlike(l, s, w);
        PlainIsAlike(r, s, w);
        PlainIsAlike(l, SignOf(e), Max(StdWidth(e), 1));
        PlainIsAlike(r, SignOf(e), Max(StdWidth(e), 1));
      case Ternary(c, l, r) =>
        PlainIsAlike(c, s, w);
        PlainIsAlike(l, s, w); PlainIsAlike(r, s, w);
        PlainIsAlike(l, SignOf(e), Max(StdWidth(e), 1)); PlainIsAlike(r, SignOf(e), Max(StdWidth(e), 1));
      case Unary(_, x) => PlainIsAlike(x, s, w);
      case Reduction(_, x) => PlainIsAlike(x, s, w);
      case _ =>
    }
  }

  lemma {:induction false} NeedWithin(e: Expr)
    ensures NeedWidth(e) <= Max(StdWidth(e), 1)
  {
    match e {
      case Binary(_, l, r) => NeedWithin(l); NeedWithin(r);
      case LeftWidth(_, l, _) => NeedWithin(l);
      case Ternary(_, l, r) => NeedWithin(l); NeedWithin(r);
      case Unary(_, x) => NeedWithin(x);
      case _ =>
    }
  }

  /** No operand is empty or too wide for an unsigned, and no unsized literal fills an integer. */
  predicate WellSized(e: Expr)
  {
    match e
    case Number(lit) => 0 < |lit.bits| <= UINT_MAX && (lit.IsUnsized() ==> |lit.bits| < INTEGER_WIDTH)
    case Operand(_, w, _, _) => 0 < w <= UINT_MAX
    case Binary(_, l, r) => WellSized(l) && WellSized(r)
    case Compare(_, l, r) => WellSized(l) && WellSized(r)
    case LeftWidth(_, l, r) => WellSized(l) && WellSized(r)
    case Ternary(c, l, r) => WellSized(c) && WellSized(l) && WellSized(r)
    case Unary(_, x) => WellSized(x)
    case Reduction(_, x) => WellSized(x)
  }

  /** A test that starts and ends in SIZED mode computes the standard width, whatever is hidden in
      self-determined operands. */
  lemma {:induction false} SizedWidth(e: Expr)
    requires TestWidth(e, SIZED).mode == SIZED
    ensures TestWidth(e, SIZED).width == TestWidth(e, SIZED).ann.W() == StdWidth(e)
    decreases e, 1
  {
    hide Elaborate, EvalExpr, LosslessWidth, RightValue;
    match e {
      case Binary(_, l, r) => SizedPair(e, r, l);
      case Ternary(_, l, r) => SizedPair(e, l, r);
      case LeftWidth(_, l, _) => SizedWidth(l);
      case Unary(_, x) => SizedWidth(x);
      case _ =>
    }
  }

  lemma SizedPair(parent: Expr, x: Expr, y: Expr)
    requires x < parent && y < parent && TestPair(parent, x, y, SIZED).mode == SIZED
    ensures TestPair(parent, x, y, SIZED).first.width == StdWidth(x)
    ensures TestPair(parent, x, y, SIZED).second.width == StdWidth(y)
    decreases parent, 0
  {
    hide TestWidth;
    var x0 := TestWidth(x, SIZED);
    ModeRises(y, x0.mode);
    ModeRises(x, TestWidth(y, x0.mode).mode);
    SizedWidth(x);
    if x0.mode == SIZED { SizedWidth(y); }
  }

  /** Without oversized literals the mode never reaches EXPAND and every width is the standard one. */
  lemma {:induction false} WellSizedWidth(e: Expr, mode: Mode)
    requires WellSized(e) && !mode.AtLeast(EXPAND)
    ensures var t := TestWidth(e, mode);
      !t.mode.AtLeast(EXPAND) && t.width == t.ann.W() == StdWidth(e) && 0 < StdWidth(e) <= UINT_MAX
    decreases e, 1
  {
    hide Elaborate, EvalExpr, LosslessWidth, RightValue;
    match e {
      case Binary(_, l, r) => WellSizedPair(e, r, l, mode);
      case Ternary(_, l, r) => WellSizedPair(e, l, r, mode);
      case LeftWidth(_, l, _) => WellSizedWidth(l, SIZED);
      case Unary(_, x) => WellSizedWidth(x, mode);
      case _ =>
    }
  }

  lemma WellSizedPair(parent: Expr, x: Expr, y: Expr, mode: Mode)
    requires x < parent && y < parent && WellSized(x) && WellSized(y) && !mode.AtLeast(EXPAND)
    ensures var p := TestPair(parent, x, y, mode);
      && !p.mode.AtLeast(EXPAND) && !TestWidth(x, mode).mode.AtLeast(EXPAND)
      && p.first == TestWidth(x, mode) && p.second == TestWidth(y, TestWidth(x, mode).mode)
      && p.first.width == p.first.ann.W() == StdWidth(x) && p.second.width == p.second.ann.W() == StdWidth(y)
      && 0 < StdWidth(x) <= UINT_MAX && 0 < StdWidth(y) <= UINT_MAX
    decreases parent, 0
  {
    hide TestWidth;
    WellSizedWidth(x, mode);
    WellSizedWidth(y, TestWidth(x, mode).mode);
  }

  /** Main result: the two passes implement the standard's evaluation rules, when every literal is extended as the
      standard does. */
  lemma {:induction false} ElaborationIsStandard(e: Expr, mode: Mode, s: bool, w: nat, env: Env)
    requires WellSized(e) && !mode.AtLeast(EXPAND) && StdWidth(e) <= w <= UINT_MAX && NeedWidth(e) <= w
    requires LiteralsAlike(e, s, w)
    ensures Eval(Elaborate(e, TestWidth(e, mode).ann, s, w), env) == StdEval(e, s, w, env)
    decreases e, 1
  {
    hide Eval, VecBinary, VecShift, VecPower, VecCompare, VecTernary, VecUnary, Reduce, EvalExpr,
         LosslessWidth, RightValue, ReadSignal, CastNumber, StdLiteral, LiteralAlike;
    var a := TestWidth(e, mode).ann;
    WellSizedWidth(e, mode);
    match e {
      case Number(lit) =>
        LiteralIsStandard(lit, w, s);
        EvalConst(CastNumber(lit, w, s), s, env);
      case Operand(id, wid, sg, two) => MeaningOperand(id, wid, sg, two, a, s, w, env);
      case Binary(op, l, r) =>
        WellSizedPair(e, r, l, mode);
        MeaningBinary(op, l, r, a, s, w, env);
        ElaborationIsStandard(l, TestWidth(r, mode).mode, s, w, env);
        ElaborationIsStandard(r, mode, s, w, env);
      case Compare(op, l, r) => CompareIsStandard(e, mode, s, w, env);
      case LeftWidth(op, l, r) => LeftWidthIsStandard(e, mode, s, w, env);
      case Ternary(c, l, r) => TernaryIsStandard(e, mode, s, w, env);
      case Unary(op, x) =>
        MeaningUnary(op, x, a, s, w, env);
        WellSizedWidth(x, mode);
        ElaborationIsStandard(x, mode, s, w, env);
      case Reduction(op, x) =>
        MeaningReduction(op, x, a, s, w, env);
        SelfIsStandard(x, env);
    }
  }

  lemma SelfIsStandard(e: Expr, env: Env)
    requires WellSized(e) && SelfAlike(e)
    ensures var t := TestWidth(e, SIZED);
      && Eval(Elaborate(e, t.ann, t.ann.S(), t.ann.W()), env) == StdSelf(e, env)
      && t.ann.W() == t.width && !t.mode.AtLeast(EXPAND)
    decreases e, 2
  {
    hide Eval, TestWidth, Elaborate, StdEval;
    WellSizedWidth(e, SIZED);
    SignStored(e, SIZED);
    NeedWithin(e);
    ElaborationIsStandard(e, SIZED, SignOf(e), StdWidth(e), env);
  }

  lemma CompareFields(e: Expr, mode: Mode)
    requires e.Compare?
    ensures TestWidth(e, mode).ann == FinishCompare(TestPair(e, e.right, e.left, SIZED))
  {
  }

  lemma CompareIsStandard(e: Expr, mode: Mode, s: bool, w: nat, env: Env)
    requires e.Compare? && WellSized(e) && 0 < w <= UINT_MAX
    requires LiteralsAlike(e, s, w)
    ensures Eval(Elaborate(e, TestWidth(e, mode).ann, s, w), env) == StdEval(e, s, w, env)
    decreases e, 0
  {
    hide Eval, VecCompare, EvalExpr, Elaborate, TestWidth, TestPair;
    var l, r := e.left, e.right;
    var a := TestWidth(e, mode).ann;
    CompareFields(e, mode);
    WellSizedPair(e, r, l, SIZED);
    PairSigns(e, r, l, SIZED);
    NeedWithin(l);
    NeedWithin(r);
    MeaningCompare(e.cop, l, r, a, s, w, env);
    var u := Max(StdWidth(l), StdWidth(r));
    ElaborationIsStandard(l, TestWidth(r, SIZED).mode, SignOf(l) && SignOf(r), u, env);
    ElaborationIsStandard(r, SIZED, SignOf(l) && SignOf(r), u, env);
  }

  lemma LeftWidthIsStandard(e: Expr, mode: Mode, s: bool, w: nat, env: Env)
    requires e.LeftWidth? && WellSized(e) && !mode.AtLeast(EXPAND) && StdWidth(e) <= w <= UINT_MAX && NeedWidth(e) <= w
    requires LiteralsAlike(e, s, w)
    ensures Eval(Elaborate(e, TestWidth(e, mode).ann, s, w), env) == StdEval(e, s, w, env)
    decreases e, 0
  {
    hide Eval, VecShift, VecPower, EvalExpr, Elaborate, LosslessWidth, RightValue;
    var l, r := e.left, e.right;
    var a := TestWidth(e, mode).ann;
    WellSizedWidth(l, SIZED);
    ElaborationIsStandard(l, SIZED, s, w, env);
    SelfIsStandard(r, env);
    SignStored(r, SIZED);
    match e.wop {
      case Shift(op) => MeaningShift(op, l, r, a, s, w, env);
      case Power =>
        MeaningPower(l, r, a, s, w, env);
        WellSizedWidth(r, SIZED);
        NeedWithin(r);
        ElaboratedShape(r, a.R(), SignOf(r), StdWidth(r));
    }
  }

  lemma TernaryIsStandard(e: Expr, mode: Mode, s: bool, w: nat, env: Env)
    requires e.Ternary? && WellSized(e) && !mode.AtLeast(EXPAND) && StdWidth(e) <= w <= UINT_MAX && NeedWidth(e) <= w
    requires LiteralsAlike(e, s, w)
    ensures Eval(Elaborate(e, TestWidth(e, mode).ann, s, w), env) == StdEval(e, s, w, env)
    decreases e, 0
  {
    hide Eval, VecTernary, EvalExpr, Elaborate;
    var l, r := e.left, e.right;
    var t := TestWidth(e.cond, SIZED);
    WellSizedPair(e, l, r, mode);
    MeaningTernary(e.cond, l, r, TestWidth(e, mode).ann, s, w, env);
    ElaborationIsStandard(l, mode, s, w, env);
    ElaborationIsStandard(r, TestWidth(l, mode).mode, s, w, env);
    SelfIsStandard(e.cond, env);
    EvalExprSame(Elaborate(e.cond, t.ann, t.ann.S(), SelfWidth(t)), env);
  }
}
