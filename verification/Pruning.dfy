/** The integer an expression stands for, and width pruning: an expression built only from
    operators whose low result bits depend on low operand bits can be evaluated at any width
    from its minimum width on. */
module Pruning {
  import opened Logic4
  import opened VecOps
  import opened NetExprs
  import opened WidthTest
  import opened ElabMeaning

  /** The value of a literal, extended by the sign pushed down when it is sized, else by its own. */
  function LiteralValue(lit: Literal, s: bool): int
  {
    ToInt(lit.bits, lit.isSingle || (if lit.hasLen then s else lit.hasSign))
  }

  /** The one-bit node of a comparison or reduction, before it is extended to its context. */
  function OwnNode(e: Expr, a: Ann): NetExpr
    requires e.Compare? || e.Reduction?
  {
    match e
    case Compare(op, l, r) =>
      var both := a.L().S() && a.R().S();
      NCompare(op, EvalExpr(Elaborate(l, a.L(), both, a.LW())), EvalExpr(Elaborate(r, a.R(), both, a.RW())), false)
    case Reduction(op, x) => MakeReduce(op, Elaborate(x, a.L(), a.L().S(), a.L().W()))
  }

  function Amount(r: Expr, a: Ann, env: Env): nat { ToNat(Eval(RightSelf(r, a), env)) }

  function Exponent(r: Expr, a: Ann, env: Env): nat
  {
    var n := ToInt(Eval(RightSelf(r, a), env), RightSelf(r, a).signed);
    if n < 0 then 0 else n
  }

  /** The exact integer meant by `e` when its operands are read with the pushed sign `s`. */
  function Value(e: Expr, a: Ann, s: bool, env: Env): int
  {
    match e
    case Number(lit) => LiteralValue(lit, s)
    case Operand(id, w, _, two) => ToInt(ReadSignal(env(id), w, two), s)
    case Binary(op, l, r) => IntBinary(op, Value(l, a.L(), s, env), Value(r, a.R(), s, env))
    case Compare(_, _, _) => ToInt(Eval(OwnNode(e, a), env), s)
    case Reduction(_, _) => ToInt(Eval(OwnNode(e, a), env), s)
    case LeftWidth(Shift(Shl), l, r) => Value(l, a.L(), s, env) * Pow2(Amount(r, a, env))
    case LeftWidth(Shift(_), l, r) => DivPow2(Value(l, a.L(), s, env), Amount(r, a, env))
    case LeftWidth(Power, l, r) => Pow(Value(l, a.L(), s, env), Exponent(r, a, env))
    case Ternary(c, l, r) =>
      if Truth(Eval(ElaborateSelf(c), env)) == V1 then Value(l, a.L(), s, env) else Value(r, a.R(), s, env)
    case Unary(Plus, x) => Value(x, a.L(), s, env)
    case Unary(Minus, x) => -Value(x, a.L(), s, env)
    case Unary(Not, x) => -Value(x, a.L(), s, env) - 1
  }

  /** Every operand, and everything computed on its own inside `e`, holds no x or z. */
  predicate OperandsDefined(e: Expr, a: Ann, env: Env)
  {
    match e
    case Number(lit) => |lit.bits| > 0 && Defined(lit.bits)
    case Operand(id, w, _, two) => w > 0 && Defined(ReadSignal(env(id), w, two))
    case Binary(_, l, r) => OperandsDefined(l, a.L(), env) && OperandsDefined(r, a.R(), env)
    case Compare(_, _, _) => Defined(Eval(OwnNode(e, a), env))
    case Reduction(_, _) => Defined(Eval(OwnNode(e, a), env))
    case LeftWidth(_, l, r) => OperandsDefined(l, a.L(), env) && Defined(Eval(RightSelf(r, a), env))
    case Ternary(c, l, r) =>
      && IsDefinedBit(Truth(Eval(ElaborateSelf(c), env)))
      && OperandsDefined(l, a.L(), env) && OperandsDefined(r, a.R(), env)
    case Unary(_, x) => OperandsDefined(x, a.L(), env)
  }

  /** No operator below `e`, outside self-determined operands, needs the high bits of its operands. */
  predicate Prunable(e: Expr)
  {
    match e
    case Binary(op, l, r) => IsRing(op) && Prunable(l) && Prunable(r)
    case LeftWidth(op, l, _) => op == Shift(Shl) && Prunable(l)
    case Ternary(_, l, r) => Prunable(l) && Prunable(r)
    case Unary(_, x) => Prunable(x)
    case _ => true
  }

  // ----- operands -----

  lemma LiteralMeaning(lit: Literal, s: bool, w: nat)
    requires |lit.bits| > 0 && Defined(lit.bits)
    ensures CastNumber(lit, w, s) == FromInt(LiteralValue(lit, s), w)
  {
    var sg := lit.isSingle || (if lit.hasLen then s else lit.hasSign);
    var n, v := |lit.bits|, LiteralValue(lit, s);
    FromIntToInt(lit.bits, sg);
    if w <= n {
      FromIntTake(v, n, w);
    } else {
      ToIntFits(lit.bits, sg);
      PadFromInt(v, n, w, sg);
      assert CastNumber(lit, w, s) == Pad(lit.bits, w, sg);
    }
  }

  lemma ExtendMeaning(v: Vec, s: bool, w: nat)
    requires 0 < |v| <= w && Defined(v)
    ensures Pad(v, w, s) == FromInt(ToInt(v, s), w)
  {
    FromIntToInt(v, s);
    ToIntFits(v, s);
    PadFromInt(ToInt(v, s), |v|, w, s);
  }

  lemma OwnNodeMeaning(e: Expr, a: Ann, s: bool, w: nat, env: Env)
    requires e.Compare? || e.Reduction?
    ensures |Eval(OwnNode(e, a), env)| == 1
    ensures Eval(Elaborate(e, a, s, w), env) == Pad(Eval(OwnNode(e, a), env), w, s)
  {
    hide Eval, EvalExpr;
    PadToWidthMeaning(OwnNode(e, a), w, s, env);
  }

  // ----- the main results -----

  /** At every width that holds its operands, the tree computes the integer value modulo that width. */
  lemma {:induction false} RingMeaning(e: Expr, a: Ann, s: bool, w: nat, env: Env)
    requires Prunable(e) && OperandsDefined(e, a, env) && NeedWidth(e) <= w && 0 < w <= ULONG_MAX
    ensures Eval(Elaborate(e, a, s, w), env) == FromInt(Value(e, a, s, env), w)
    decreases e
  {
    hide Eval, VecBinary, VecShift, VecTernary, VecUnary, EvalExpr, ReadSignal, ToInt, CastNumber,
         Truth, ElaborateSelf, OwnNode, IntBinary, FromInt, RightSelf;
    match e {
      case Number(lit) =>
        LiteralMeaning(lit, s, w);
        EvalConst(CastNumber(lit, w, s), s, env);
      case Operand(id, wid, sg, two) =>
        MeaningOperand(id, wid, sg, two, a, s, w, env);
        ExtendMeaning(ReadSignal(env(id), wid, two), s, w);
      case Binary(op, l, r) =>
        MeaningBinary(op, l, r, a, s, w, env);
        RingMeaning(l, a.L(), s, w, env);
        RingMeaning(r, a.R(), s, w, env);
        RingFromInt(op, Value(l, a.L(), s, env), Value(r, a.R(), s, env), w, s);
      case LeftWidth(_, l, r) =>
        MeaningShift(Shl, l, r, a, s, w, env);
        RingMeaning(l, a.L(), s, w, env);
        LeftShiftMeaning(Value(l, a.L(), s, env), Eval(RightSelf(r, a), env), w, s);
      case Ternary(c, l, r) =>
        MeaningTernary(c, l, r, a, s, w, env);
        RingMeaning(l, a.L(), s, w, env);
        RingMeaning(r, a.R(), s, w, env);
        PickMeaning(Truth(Eval(ElaborateSelf(c), env)), Value(l, a.L(), s, env), Value(r, a.R(), s, env), w);
      case Unary(op, x) =>
        MeaningUnary(op, x, a, s, w, env);
        RingMeaning(x, a.L(), s, w, env);
        UnaryMeaning(op, Value(x, a.L(), s, env), w);
      case _ =>
        OwnNodeMeaning(e, a, s, w, env);
        ExtendMeaning(Eval(OwnNode(e, a), env), s, w);
    }
  }

  lemma LeftShiftMeaning(x: int, amount: Vec, w: nat, s: bool)
    requires Defined(amount)
    ensures VecShift(Shl, FromInt(x, w), amount, s) == FromInt(x * Pow2(ToNat(amount)), w)
  {
    ShiftLeftFromInt(x, w, ToNat(amount), s);
  }

  lemma PickMeaning(c: V, x: int, y: int, w: nat)
    requires IsDefinedBit(c)
    ensures VecTernary(c, FromInt(x, w), FromInt(y, w)) == FromInt(if c == V1 then x else y, w)
  {
  }

  lemma UnaryMeaning(op: UnOp, x: int, w: nat)
    ensures VecUnary(op, FromInt(x, w))
         == FromInt(match op case Plus => x case Minus => -x case Not => -x - 1, w)
  {
    NegateFromInt(x, w);
    NotFromInt(x, w);
  }

  /** Evaluating at a smaller width keeps the low bits. */
  lemma PruningIsSound(e: Expr, a: Ann, s: bool, k: nat, w: nat, env: Env)
    requires Prunable(e) && OperandsDefined(e, a, env) && NeedWidth(e) <= k <= w <= ULONG_MAX && 0 < k
    ensures |Eval(Elaborate(e, a, s, w), env)| == w
    ensures Eval(Elaborate(e, a, s, k), env) == Eval(Elaborate(e, a, s, w), env)[..k]
  {
    ElaboratedShape(e, a, s, w);
    RingMeaning(e, a, s, k, env);
    RingMeaning(e, a, s, w, env);
    FromIntTake(Value(e, a, s, env), w, k);
  }

  /** Operands in context positions have ordinary widths. */
  predicate OrdinaryOperands(e: Expr)
  {
    match e
    case Number(lit) => 0 < |lit.bits| < UINT_MAX
    case Operand(_, w, _, _) => 0 < w < UINT_MAX
    case Binary(_, l, r) => OrdinaryOperands(l) && OrdinaryOperands(r)
    case LeftWidth(_, l, _) => OrdinaryOperands(l)
    case Ternary(_, l, r) => OrdinaryOperands(l) && OrdinaryOperands(r)
    case Unary(_, x) => OrdinaryOperands(x)
    case _ => true
  }

  /** The stored minimum width marks whether `e` may be pruned, and covers its operands. */
  predicate Marks(e: Expr, t: Test)
  {
    && MinWidth(t.ann) <= UINT_MAX && (MinWidth(t.ann) == UINT_MAX <==> !Prunable(e))
    && (Prunable(e) ==> NeedWidth(e) <= MinWidth(t.ann))
    && (Prunable(e) && ConstantShifts(e) ==> MinWidth(t.ann) <= t.width)
  }

  /** Every shift in a context position of `e` has a constant amount. */
  predicate ConstantShifts(e: Expr)
  {
    match e
    case Binary(_, l, r) => ConstantShifts(l) && ConstantShifts(r)
    case LeftWidth(_, l, r) => ConstantShifts(l) && TestedRight(r).NConst?
    case Ternary(_, l, r) => ConstantShifts(l) && ConstantShifts(r)
    case Unary(_, x) => ConstantShifts(x)
    case _ => true
  }

  /** The right operand as the width test of a shift sees it. */
  function TestedRight(r: Expr): NetExpr
  {
    var rt := TestWidth(r, SIZED);
    EvalExpr(Elaborate(r, rt.ann, rt.ann.S(), rt.width))
  }

  /** The minimum width is UINT_MAX exactly when pruning would be wrong, however deep the cause;
      otherwise it covers every operand, and does not exceed the width unless a variable shift
      amount made the width test clip the width. */
  lemma {:induction false} MinWidthMarksPruning(e: Expr, mode: Mode)
    requires OrdinaryOperands(e)
    ensures Marks(e, TestWidth(e, mode)) && TestWidth(e, mode).width <= TestWidth(e, mode).ann.W()
    decreases e, 1
  {
    hide Elaborate, EvalExpr, RightValue, Prunable, NeedWidth, ConstantShifts, FinishBinary, FinishTernary;
    match e {
      case Binary(op, l, r) =>
        MinWidthPair(e, r, l, mode);
        BinaryMarks(op, l, r, TestPair(e, r, l, mode));
      case Ternary(c, l, r) =>
        MinWidthPair(e, l, r, mode);
        TernaryMarks(c, l, r, TestPair(e, l, r, mode));
      case LeftWidth(op, l, r) =>
        MinWidthMarksPruning(l, SIZED);
        LeafNeeds(e);
      case Unary(_, x) =>
        MinWidthMarksPruning(x, mode);
        LeafNeeds(e);
      case _ => LeafNeeds(e);
    }
  }

  /** The width of the widest operand that is not computed on its own. */
  function LargestOperand(e: Expr): nat
  {
    match e
    case Number(lit) => |lit.bits|
    case Operand(_, w, _, _) => w
    case Compare(_, _, _) => 1
    case Reduction(_, _) => 1
    case LeftWidth(_, l, _) => LargestOperand(l)
    case Unary(_, x) => LargestOperand(x)
    case Binary(_, l, r) => Max(LargestOperand(l), LargestOperand(r))
    case Ternary(_, l, r) => Max(LargestOperand(l), LargestOperand(r))
  }

  /** Where pruning is right, it stops at the widest operand, in whatever mode the test ran. */
  lemma {:induction false} MinWidthIsLargest(e: Expr, mode: Mode)
    requires Prunable(e)
    ensures MinWidth(TestWidth(e, mode).ann) == LargestOperand(e)
    decreases e, 1
  {
    hide Elaborate, EvalExpr, RightValue;
    match e {
      case Binary(_, l, r) => PairIsLargest(e, r, l, mode);
      case Ternary(_, l, r) => PairIsLargest(e, l, r, mode);
      case LeftWidth(_, l, _) => MinWidthIsLargest(l, SIZED);
      case Unary(_, x) => MinWidthIsLargest(x, mode);
      case _ =>
    }
  }

  lemma {:induction false} PairIsLargest(parent: Expr, x: Expr, y: Expr, mode: Mode)
    requires x < parent && y < parent && Prunable(x) && Prunable(y)
    ensures var p := TestPair(parent, x, y, mode);
      MinWidth(p.first.ann) == LargestOperand(x) && MinWidth(p.second.ann) == LargestOperand(y)
    decreases parent, 0
  {
    hide TestWidth, LargestOperand;
    var x0 := TestWidth(x, mode);
    MinWidthIsLargest(x, mode);
    MinWidthIsLargest(y, x0.mode);
    MinWidthIsLargest(x, TestWidth(y, x0.mode).mode);
  }

  lemma LeafNeeds(e: Expr)
    ensures e.LeftWidth? ==>
      && NeedWidth(e) == NeedWidth(e.left) && (Prunable(e) <==> e.wop == Shift(Shl) && Prunable(e.left))
      && (ConstantShifts(e) <==> ConstantShifts(e.left) && TestedRight(e.right).NConst?)
    ensures e.Unary? ==>
      && NeedWidth(e) == NeedWidth(e.left) && (Prunable(e) <==> Prunable(e.left))
      && (ConstantShifts(e) <==> ConstantShifts(e.left))
    ensures e.Operand? ==> NeedWidth(e) == e.width && Prunable(e)
    ensures e.Number? || e.Compare? || e.Reduction? ==> NeedWidth(e) == 1 && Prunable(e)
  {
  }

  lemma BinaryMarks(op: BinOp, l: Expr, r: Expr, p: PairTest)
    requires Marks(r, p.first) && Marks(l, p.second)
    ensures var t := FinishBinary(op, p); Marks(Binary(op, l, r), t) && t.width <= t.ann.W()
  {
  }

  lemma TernaryMarks(c: Expr, l: Expr, r: Expr, p: PairTest)
    requires Marks(l, p.first) && Marks(r, p.second)
    ensures var t := FinishTernary(p); Marks(Ternary(c, l, r), t) && t.width <= t.ann.W()
  {
  }

  lemma MinWidthPair(parent: Expr, x: Expr, y: Expr, mode: Mode)
    requires x < parent && y < parent && OrdinaryOperands(x) && OrdinaryOperands(y)
    ensures Marks(x, TestPair(parent, x, y, mode).first) && Marks(y, TestPair(parent, x, y, mode).second)
    decreases parent, 0
  {
    hide TestWidth;
    var x0 := TestWidth(x, mode);
    MinWidthMarksPruning(x, mode);
    MinWidthMarksPruning(y, x0.mode);
    MinWidthMarksPruning(x, TestWidth(y, x0.mode).mode);
  }

  /** The width at which the right-hand side of an assignment to `ctx` bits is elaborated. */
  function AssignWidth(t: Test, ctx: nat): nat
  {
    var w := Max(t.ann.W(), ctx);
    var p := if MinWidth(t.ann) != UINT_MAX && ctx > 0 && w > ctx then Max(MinWidth(t.ann), ctx) else w;
    if Excessive(t, ctx, p) then WIDTH_CAP else p
  }

  /** Main result: how far an assignment prunes. */
  lemma PrunedWidth(e: Expr, ctx: nat)
    requires OrdinaryOperands(e) && 0 < ctx < TestWidth(e, SIZED).ann.W() <= WIDTH_CAP && LargestOperand(e) <= WIDTH_CAP
    ensures AssignWidth(TestWidth(e, SIZED), ctx) ==
      if Prunable(e) then Max(LargestOperand(e), ctx) else TestWidth(e, SIZED).ann.W()
  {
    hide TestWidth, LargestOperand;
    MinWidthMarksPruning(e, SIZED);
    if Prunable(e) { MinWidthIsLargest(e, SIZED); }
  }

  /** The excessive-width warning: an unsized expression is cut at the cap. */
  predicate Excessive(t: Test, ctx: nat, w: nat) { t.mode.AtLeast(LOSSLESS) && w > WIDTH_CAP && w > ctx }

  /** Main result: the bits an assignment keeps are those of the unpruned evaluation. Shift amounts must be
      constant, or every context operand fit the target; operands and target must fit the width cap, or the
      unpruned width not run into it. */
  lemma AssignedBitsSurvivePruning(e: Expr, ctx: nat, s: bool, env: Env)
    requires OrdinaryOperands(e) && 0 < ctx <= UINT_MAX && Prunable(e)
    requires ConstantShifts(e) || NeedWidth(e) <= ctx
    requires var t := TestWidth(e, SIZED);
      && OperandsDefined(e, t.ann, env) && t.ann.W() <= ULONG_MAX
      && (Max(NeedWidth(e), ctx) <= WIDTH_CAP || !Excessive(t, ctx, Max(t.ann.W(), ctx))
        || !Excessive(t, ctx, MinWidth(t.ann)))
    ensures var t := TestWidth(e, SIZED);
      && ctx <= AssignWidth(t, ctx) && (ConstantShifts(e) ==> AssignWidth(t, ctx) <= Max(t.ann.W(), ctx))
      && |Eval(Elaborate(e, t.ann, s, AssignWidth(t, ctx)), env)| == AssignWidth(t, ctx)
      && |Eval(Elaborate(e, t.ann, s, Max(t.ann.W(), ctx)), env)| == Max(t.ann.W(), ctx)
      && Eval(Elaborate(e, t.ann, s, AssignWidth(t, ctx)), env)[..ctx]
         == Eval(Elaborate(e, t.ann, s, Max(t.ann.W(), ctx)), env)[..ctx]
  {
    hide Eval, Elaborate, TestWidth, OperandsDefined, Prunable, NeedWidth, ConstantShifts;
    var t := TestWidth(e, SIZED);
    MinWidthMarksPruning(e, SIZED);
    var k, w := AssignWidth(t, ctx), Max(t.ann.W(), ctx);
    ElaboratedShape(e, t.ann, s, k);
    ElaboratedShape(e, t.ann, s, w);
    if k <= w { PruningIsSound(e, t.ann, s, k, w, env); } else { PruningIsSound(e, t.ann, s, w, k, env); }
  }

  /** Main result: the bits an assignment keeps are the low bits of the exact value. The width that elaboration
      ends up with must hold every context operand: shift amounts are constant, the operands fit the target, or
      the width of the expression exceeds the target and is pruned. */
  lemma AssignedBitsAreExact(e: Expr, ctx: nat, s: bool, env: Env)
    requires OrdinaryOperands(e) && 0 < ctx <= UINT_MAX && Prunable(e)
    requires ConstantShifts(e) || NeedWidth(e) <= ctx || ctx < TestWidth(e, SIZED).ann.W()
    requires var t := TestWidth(e, SIZED);
      && OperandsDefined(e, t.ann, env) && AssignWidth(t, ctx) <= ULONG_MAX
      && (Max(NeedWidth(e), ctx) <= WIDTH_CAP || !Excessive(t, ctx, MinWidth(t.ann)))
    ensures var t := TestWidth(e, SIZED);
      && |Eval(Elaborate(e, t.ann, s, AssignWidth(t, ctx)), env)| == AssignWidth(t, ctx) >= ctx
      && Eval(Elaborate(e, t.ann, s, AssignWidth(t, ctx)), env)[..ctx] == FromInt(Value(e, t.ann, s, env), ctx)
  {
    hide Eval, Elaborate, TestWidth, OperandsDefined, Prunable, NeedWidth, ConstantShifts, Value, FromInt;
    var t := TestWidth(e, SIZED);
    MinWidthMarksPruning(e, SIZED);
    var k := AssignWidth(t, ctx);
    ElaboratedShape(e, t.ann, s, k);
    RingMeaning(e, t.ann, s, k, env);
    FromIntTake(Value(e, t.ann, s, env), k, ctx);
  }
}
