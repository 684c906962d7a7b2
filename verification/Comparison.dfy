/** The widths a comparison gives its operands: with one signedness they make it compare exact
    integers; with mixed signedness they do not. */
module Comparison {
  import opened Logic4
  import opened VecOps
  import opened NetExprs
  import opened WidthTest
  import opened Coherence
  import opened ElabMeaning
  import opened Pruning
  import opened Lossless

  lemma CompareFields(op: CmpOp, l: Expr, r: Expr, mode: Mode)
    ensures var e := Compare(op, l, r);
      TestWidth(e, mode).ann == FinishCompare(TestPair(e, r, l, SIZED))
  {
  }

  /** Main result: when the operands have one signedness and are lossless, the comparison gives
      the answer for the exact integers. The bit that is added is not even needed. */
  lemma ComparisonIsExact(op: CmpOp, l: Expr, r: Expr, mode: Mode, s: bool, ctx: bool, w: nat, env: Env)
    requires Exactable(l, s) && Exactable(r, s)
    requires TestPair(Compare(op, l, r), r, l, SIZED).mode == LOSSLESS
    requires var a := TestWidth(Compare(op, l, r), mode).ann;
      OperandsDefined(l, a.L(), env) && OperandsDefined(r, a.R(), env) && a.LW() <= ULONG_MAX
    ensures var a := TestWidth(Compare(op, l, r), mode).ann;
      && a.LW() == a.RW()
      && Eval(Elaborate(Compare(op, l, r), a, ctx, w), env)
         == Pad([FromBool(IntCompare(op, Value(l, a.L(), s, env), Value(r, a.R(), s, env)))], w, ctx)
  {
    hide Eval, Elaborate, TestWidth, TestPair, VecCompare, OperandsDefined, Value, Exactable, Fits, FromInt;
    var e := Compare(op, l, r);
    var a, p := TestWidth(e, mode).ann, TestPair(e, r, l, SIZED);
    CompareFields(op, l, r, mode);
    PairLossless(e, r, l, SIZED, s, env);
    PairSigns(e, r, l, SIZED);
    ExactableSign(l, s);
    ExactableSign(r, s);
    var x, y, u := Value(l, a.L(), s, env), Value(r, a.R(), s, env), a.LW();
    FitsWider(x, p.second.width, u, s);
    FitsWider(y, p.first.width, u, s);
    MeaningCompare(op, l, r, a, ctx, w, env);
    CompareFromInt(op, x, y, u, s);
  }

  /** The vector of a negative number, read as unsigned. */
  lemma NegativeReadUnsigned(x: int, u: nat)
    requires u > 0 && 0 - Pow2(u - 1) <= x < 0
    ensures FromInt(x, u) == FromInt(x + Pow2(u), u) && Fits(x + Pow2(u), u, false)
  {
    FromIntPeriodic(x, 1, u);
  }

  lemma MixedFields(op: CmpOp, lit: Literal, id: nat, ow: nat, two: bool, mode: Mode)
    requires lit.IsUnsized() && lit.hasSign && INTEGER_WIDTH <= |lit.bits| && ow < |lit.bits|
    ensures var l, r := Number(lit), Operand(id, ow, false, two);
      var a := TestWidth(Compare(op, l, r), mode).ann;
      && TestPair(Compare(op, l, r), r, l, SIZED).mode == LOSSLESS
      && a.L().S() && !a.R().S() && a.LW() == a.RW() == |lit.bits|
  {
    var l, r := Number(lit), Operand(id, ow, false, two);
    CompareFields(op, l, r, mode);
    assert TestWidth(r, SIZED) == TestWidth(r, LOSSLESS).(mode := SIZED);
    assert TestWidth(l, SIZED).mode == LOSSLESS;
  }

  predicate IsEquality(op: CmpOp) { op.Eq? || op.Ne? || op.CaseEq? || op.CaseNe? }

  /** With mixed signedness the added bit does not help: an unsized signed literal that fills an integer,
      compared with a narrower unsigned operand, is compared correctly exactly when it is not negative, or
      only equality is asked. */
  lemma MixedSignsCompareUnsigned(op: CmpOp, lit: Literal, id: nat, ow: nat, two: bool, mode: Mode, env: Env)
    requires lit.IsUnsized() && lit.hasSign && Defined(lit.bits)
    requires INTEGER_WIDTH <= |lit.bits| <= UINT_MAX && 0 < ow < |lit.bits| && Defined(ReadSignal(env(id), ow, two))
    ensures var l, r := Number(lit), Operand(id, ow, false, two);
      var e := Compare(op, l, r);
      var x, y := LiteralValue(lit, true), ToInt(ReadSignal(env(id), ow, two), false);
      && TestPair(e, r, l, SIZED).mode == LOSSLESS
      && (Eval(Elaborate(e, TestWidth(e, mode).ann, false, 1), env) == [FromBool(IntCompare(op, x, y))]
          <==> x >= 0 || IsEquality(op))
  {
    hide Eval, Elaborate, VecCompare, ToInt, FromInt, ReadSignal, CastNumber, TestWidth, TestPair;
    var l, r := Number(lit), Operand(id, ow, false, two);
    var e := Compare(op, l, r);
    var a, u := TestWidth(e, mode).ann, |lit.bits|;
    var x, y := LiteralValue(lit, true), ToInt(ReadSignal(env(id), ow, two), false);
    MixedFields(op, lit, id, ow, two, mode);
    MeaningCompare(op, l, r, a, false, 1, env);
    RingMeaning(l, a.L(), false, u, env);
    RingMeaning(r, a.R(), false, u, env);
    ToIntFits(lit.bits, true);
    ToIntFits(ReadSignal(env(id), ow, two), false);
    FitsWider(y, ow, u - 1, false);
    FitsWider(y, ow, u, false);
    Pow2Monotone(u - 1, u);
    if x < 0 {
      NegativeReadUnsigned(x, u);
      CompareFromInt(op, x + Pow2(u), y, u, false);
    } else {
      CompareFromInt(op, x, y, u, false);
    }
  }

  /** What a vector of `u` bits holds of an integer, read as unsigned. */
  function Low(x: int, u: nat): int { x % Pow2(u) }

  lemma LowIsSame(x: int, u: nat)
    ensures FromInt(x, u) == FromInt(Low(x, u), u) && Fits(Low(x, u), u, false)
  {
    var q := x / Pow2(u);
    assert x == Low(x, u) + q * Pow2(u);
    FromIntPeriodic(Low(x, u), q, u);
  }

  /** Main result: operands of different signedness, whatever they are, are compared by their low bits read as
      unsigned, after every operand inside has been extended with zeros. */
  lemma MixedSignsReadUnsigned(op: CmpOp, l: Expr, r: Expr, mode: Mode, env: Env)
    requires Prunable(l) && Prunable(r)
    requires var a := TestWidth(Compare(op, l, r), mode).ann;
      && a.L().S() != a.R().S() && 0 < a.LW() <= ULONG_MAX && Max(NeedWidth(l), NeedWidth(r)) <= a.LW()
      && OperandsDefined(l, a.L(), env) && OperandsDefined(r, a.R(), env)
    ensures var a := TestWidth(Compare(op, l, r), mode).ann;
      Eval(Elaborate(Compare(op, l, r), a, false, 1), env)
        == [FromBool(IntCompare(op, Low(Value(l, a.L(), false, env), a.LW()),
                                    Low(Value(r, a.R(), false, env), a.LW())))]
  {
    hide Eval, Elaborate, TestWidth, TestPair, VecCompare, OperandsDefined, Value, Fits, FromInt, Low;
    var a := TestWidth(Compare(op, l, r), mode).ann;
    var x, y, u := Value(l, a.L(), false, env), Value(r, a.R(), false, env), a.LW();
    CompareFields(op, l, r, mode);
    MeaningCompare(op, l, r, a, false, 1, env);
    RingMeaning(l, a.L(), false, u, env);
    RingMeaning(r, a.R(), false, u, env);
    LowIsSame(x, u);
    LowIsSame(y, u);
    CompareFromInt(op, Low(x, u), Low(y, u), u, false);
  }

  /** Whether reading a negative number as `x` gives the same verdict against `y`, which is not negative. */
  predicate VerdictStands(op: CmpOp, x: int, y: int)
  {
    match op
    case Lt => x < y
    case Le => x <= y
    case Gt => x <= y
    case Ge => x < y
    case _ => x != y
  }

  /** Main result: a signed operand is compared correctly with an unsigned one exactly when it is not negative,
      or the verdict stands with its bits read as unsigned. */
  lemma MixedOperandsExactlyWhen(op: CmpOp, i: nat, wi: nat, ti: bool, j: nat, wj: nat, tj: bool, mode: Mode, env: Env)
    requires 0 < wi <= ULONG_MAX && 0 < wj <= ULONG_MAX
    requires Defined(ReadSignal(env(i), wi, ti)) && Defined(ReadSignal(env(j), wj, tj))
    ensures var e := Compare(op, Operand(i, wi, true, ti), Operand(j, wj, false, tj));
      var x, y := ToInt(ReadSignal(env(i), wi, ti), true), ToInt(ReadSignal(env(j), wj, tj), false);
      Eval(Elaborate(e, TestWidth(e, mode).ann, false, 1), env) == [FromBool(IntCompare(op, x, y))] <==>
        x >= 0 || VerdictStands(op, x + Pow2(wi), y)
  {
    hide Eval, Elaborate, VecCompare, FromInt, ReadSignal, Pow2;
    var l, r := Operand(i, wi, true, ti), Operand(j, wj, false, tj);
    var a, u := TestWidth(Compare(op, l, r), mode).ann, Max(wi, wj);
    MixedOperandFields(op, i, wi, ti, j, wj, tj, mode);
    var v, y := ReadSignal(env(i), wi, ti), ToInt(ReadSignal(env(j), wj, tj), false);
    var x := ToInt(v, true);
    MixedSignsReadUnsigned(op, l, r, mode, env);
    ToIntFits(v, false);
    ToIntFits(v, true);
    ToIntFits(ReadSignal(env(j), wj, tj), false);
    FitsWider(ToInt(v, false), wi, u, false);
    FitsWider(y, wj, u, false);
    LowOfFitting(ToInt(v, false), u);
    LowOfFitting(y, u);
    assert ToInt(v, false) == if x >= 0 then x else x + Pow2(wi);
  }

  lemma LowOfFitting(x: int, u: nat)
    requires Fits(x, u, false)
    ensures Low(x, u) == x
  {
    SmallModulo(x, Pow2(u));
  }

  lemma SmallModulo(x: nat, p: nat)
    requires x < p
    ensures x % p == x
  {
  }

  lemma MixedOperandFields(op: CmpOp, i: nat, wi: nat, ti: bool, j: nat, wj: nat, tj: bool, mode: Mode)
    requires wi > 0 && wj > 0
    ensures var a := TestWidth(Compare(op, Operand(i, wi, true, ti), Operand(j, wj, false, tj)), mode).ann;
      a.LW() == a.RW() == Max(wi, wj) && a.L().S() && !a.R().S()
  {
    var l, r := Operand(i, wi, true, ti), Operand(j, wj, false, tj);
    CompareFields(op, l, r, mode);
    assert TestPair(Compare(op, l, r), r, l, SIZED).mode == SIZED;
  }
}
