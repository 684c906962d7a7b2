/** Where the width test promises a lossless width and does not give one: the exact conditions, with inputs. */
module LosslessLimits {
  import opened Logic4
  import opened VecOps
  import opened NetExprs
  import opened WidthTest
  import opened ElabMeaning
  import opened Pruning
  import opened Lossless

  // ----- a sized literal as the base of a power -----

  /** Main result: a sized literal raised to a constant gets the width of the literal, which is lossless exactly
      when the power fits it. */
  lemma SizedBaseExactlyWhen(lit: Literal, r: Expr, mode: Mode, k: nat, s: bool, env: Env)
    requires |lit.bits| > 0 && lit.hasLen && !lit.isSingle && lit.hasSign == s && k >= 1 && ConstantRight(r, k)
    requires Promised(TestWidth(LeftWidth(Power, Number(lit), r), mode))
    requires OperandsDefined(LeftWidth(Power, Number(lit), r),
                             TestWidth(LeftWidth(Power, Number(lit), r), mode).ann, env)
    ensures var e := LeftWidth(Power, Number(lit), r);
      && TestWidth(e, mode).width == |lit.bits|
      && (Exact(e, TestWidth(e, mode), s, env) <==> Fits(Pow(LiteralValue(lit, s), k), |lit.bits|, s))
  {
    hide Eval, Elaborate, EvalExpr, RightSelf, RightValue, PowerWidth, Pow, Fits, ToInt;
    var e := LeftWidth(Power, Number(lit), r);
    var t := TestWidth(e, mode);
    ConstantRightMeaning(Power, r, k, t.ann, env);
    assert Value(e, t.ann, s, env) == Pow(LiteralValue(lit, s), k);
    if Fits(Pow(LiteralValue(lit, s), k), |lit.bits|, s) {
      assert SizedBaseFits(Number(lit), k, s);
      LosslessIsExact(e, mode, s, env);
    }
  }

  /** An unsigned literal of `n` ones. */
  function Ones(n: nat, sized: bool): Literal { Literal(Fill(V1, n), sized, false, false) }

  function Eight(): Expr { Number(Literal(FromInt(8, 5), false, true, false)) }

  lemma Sixteen()
    ensures Pow2(4) == 16
  {
  }

  lemma OnesValue(n: nat, sized: bool)
    ensures LiteralValue(Ones(n, sized), false) == Pow2(n) - 1
  {
    ToNatFill(V1, n);
  }

  lemma EightIsConstant()
    ensures ConstantRight(Eight(), 8)
  {
    hide FromInt, CastNumber, ToInt, Eval, Pow2;
    var lit := Eight().lit;
    Sixteen();
    ToIntFromInt(8, 5, true);
    LiteralMeaning(lit, true, INTEGER_WIDTH);
    FitsWider(8, 5, INTEGER_WIDTH, true);
    ToIntFromInt(8, INTEGER_WIDTH, true);
    FitsWider(8, 4, INTEGER_WIDTH, false);
    ToIntFromInt(8, INTEGER_WIDTH, false);
    EvalConst(FromInt(8, INTEGER_WIDTH), true, NoSignals);
    UnsignedIsNat(FromInt(8, INTEGER_WIDTH));
  }

  lemma UnsignedIsNat(v: Vec)
    ensures ToInt(v, false) == ToNat(v)
  {
  }

  /** `(4'd15 ** 8) * 'hFFFFFFFFF` */
  function PowerOfSized(): Expr
  {
    Binary(Mul, LeftWidth(Power, Number(Ones(4, true)), Eight()), Number(Ones(36, false)))
  }

  /** The test calls its 40 bits lossless; the exact value is far larger. */
  lemma PowerOfSizedDoesNotFit(env: Env)
    ensures var e := PowerOfSized();
      var t := TestWidth(e, SIZED);
      Promised(t) && t.width == 40 && !Fits(Value(e, t.ann, false, env), t.width, false)
  {
    hide FromInt, CastNumber, ToInt, Eval, Pow2, Elaborate, EvalExpr, RightSelf, RightValue, Fits;
    var e := PowerOfSized();
    var t := TestWidth(e, SIZED);
    EightIsConstant();
    PowerOfSizedWidth();
    ConstantRightMeaning(Power, Eight(), 8, t.ann.L(), env);
    OnesValue(4, true);
    OnesValue(36, false);
    Sixteen();
    TooLarge();
    assert Value(e, t.ann, false, env) == Pow(15, 8) * (Pow2(36) - 1);
  }

  lemma PowerOfSizedWidth()
    ensures var t := TestWidth(PowerOfSized(), SIZED);
      && t.width == 40 && t.mode == LOSSLESS && t.ann.Ann?
      && t.ann.l == TestWidth(PowerOfSized().left, LOSSLESS).ann
      && t.ann.l.R() == TestWidth(Eight(), SIZED).ann
  {
    hide RightValue, EvalExpr, Elaborate, FromInt;
    EightIsConstant();
    var l, r := PowerOfSized().left, PowerOfSized().right;
    var rp := TestedRight(Eight());
    assert TestWidth(r, SIZED) == TestNumber(r.lit, SIZED);
    assert TestWidth(r, SIZED).mode == LOSSLESS && TestWidth(r, SIZED).width == 36;
    SizedPowLen(l.left.lit, rp.bits, rp.signed);
    assert TestWidth(l, LOSSLESS).width == 4 && TestWidth(l, LOSSLESS).mode == LOSSLESS;
  }

  lemma TooLarge()
    ensures !Fits(Pow(15, 8) * (Pow2(36) - 1), 40, false)
  {
    hide Pow2;
    Sixteen();
    Pow2Add(36, 4);
    Pow2Monotone(4, 36);
    PowAdd(15, 2, 6);
    assert Pow(15, 2) == 225 by { assert Pow(15, 1) == 15 * Pow(15, 0); }
    PositivePower(6);
    var p, q := Pow(15, 8), Pow2(36) - 1;
    assert (p - 225) * q >= 0;
  }

  lemma {:induction false} PositivePower(e: nat)
    ensures Pow(15, e) >= 1
  {
    if e > 0 { PositivePower(e - 1); }
  }

  // ----- a left operand that keeps its size when it is shifted -----

  /** Main result: a sized literal shifted by a constant is tested at the width of the literal, which is lossless
      exactly when the shifted value fits it. */
  lemma SizedShiftExactlyWhen(lit: Literal, r: Expr, mode: Mode, k: nat, s: bool, env: Env)
    requires |lit.bits| > 0 && lit.hasLen && !lit.isSingle && lit.hasSign == s && ConstantRight(r, k)
    requires Promised(TestWidth(LeftWidth(Shift(Shl), Number(lit), r), mode))
    requires OperandsDefined(LeftWidth(Shift(Shl), Number(lit), r),
                             TestWidth(LeftWidth(Shift(Shl), Number(lit), r), mode).ann, env)
    ensures var e := LeftWidth(Shift(Shl), Number(lit), r);
      && TestWidth(e, mode).width == |lit.bits|
      && (Exact(e, TestWidth(e, mode), s, env) <==> Fits(LiteralValue(lit, s) * Pow2(k), |lit.bits|, s))
  {
    hide Eval, Elaborate, EvalExpr, RightSelf, RightValue, Fits, ToInt, Exact;
    var e := LeftWidth(Shift(Shl), Number(lit), r);
    var t := TestWidth(e, mode);
    ConstantRightMeaning(Shift(Shl), r, k, t.ann, env);
    RingExact(e, t, s, env);
  }

  /** The expression is exact whatever its operands hold, as long as they are defined. */
  ghost predicate AlwaysExact(e: Expr, mode: Mode, s: bool)
  {
    forall env: Env :: OperandsDefined(e, TestWidth(e, mode).ann, env) ==> Exact(e, TestWidth(e, mode), s, env)
  }

  /** The least value of a signed operand, and the one with the same bits of an unsigned operand. */
  function TopBit(w: nat, signed: bool): int
    requires w > 0
  { if signed then 0 - Pow2(w - 1) else Pow2(w - 1) }

  lemma TopBitOverflows(w: nat, k: nat, signed: bool)
    requires w > 0 && k > 0
    ensures Fits(TopBit(w, signed), w, signed) && !Fits(TopBit(w, signed) * Pow2(k), w, signed)
  {
    ScaledBetween(TopBit(w, signed), 2, Pow2(k));
    assert Pow2(k) >= 2 by { assert Pow2(k) == 2 * Pow2(k - 1); }
    assert Pow2(w) == 2 * Pow2(w - 1);
  }

  lemma OperandShiftTested(id: nat, ow: nat, s: bool, two: bool, r: Expr, mode: Mode, k: nat, env: Env)
    requires ow > 0 && ConstantRight(r, k) && Defined(ReadSignal(env(id), ow, two))
    requires Promised(TestWidth(LeftWidth(Shift(Shl), Operand(id, ow, s, two), r), mode))
    ensures var e := LeftWidth(Shift(Shl), Operand(id, ow, s, two), r);
      var t := TestWidth(e, mode);
      && t.width == ow && OperandsDefined(e, t.ann, env) && Prunable(e) && NeedWidth(e) == ow
      && Value(e, t.ann, s, env) == ToInt(ReadSignal(env(id), ow, two), s) * Pow2(k)
  {
    hide Eval, Elaborate, EvalExpr, RightSelf, RightValue, ToInt;
    var e := LeftWidth(Shift(Shl), Operand(id, ow, s, two), r);
    ConstantRightMeaning(Shift(Shl), r, k, TestWidth(e, mode).ann, env);
  }

  /** Main result: an operand shifted by a constant is tested at its own width, which is lossless for every value
      exactly when the shift does nothing. */
  lemma OperandShiftExactlyWhen(id: nat, ow: nat, s: bool, two: bool, r: Expr, mode: Mode, k: nat)
    requires ow > 0 && ConstantRight(r, k)
    requires Promised(TestWidth(LeftWidth(Shift(Shl), Operand(id, ow, s, two), r), mode))
    ensures AlwaysExact(LeftWidth(Shift(Shl), Operand(id, ow, s, two), r), mode, s) <==> k == 0
  {
    hide Exact, Elaborate, EvalExpr, RightValue, TestWidth, OperandsDefined, Fits, ToInt, FromInt, ConstantRight;
    var e := LeftWidth(Shift(Shl), Operand(id, ow, s, two), r);
    if k == 0 {
      forall env: Env | OperandsDefined(e, TestWidth(e, mode).ann, env) ensures Exact(e, TestWidth(e, mode), s, env) {
        OperandIsDefined(e, mode, env);
        OperandShiftTested(id, ow, s, two, r, mode, k, env);
        ToIntFits(ReadSignal(env(id), ow, two), s);
        assert Pow2(0) == 1;
        RingExact(e, TestWidth(e, mode), s, env);
      }
    } else {
      var top := FromInt(TopBit(ow, s), ow);
      var env: Env := _ => top;
      TopBitOverflows(ow, k, s);
      ToIntFromInt(TopBit(ow, s), ow, s);
      FromIntDefined(TopBit(ow, s), ow);
      assert ReadSignal(env(id), ow, two) == top;
      OperandShiftTested(id, ow, s, two, r, mode, k, env);
      RingExact(e, TestWidth(e, mode), s, env);
    }
  }

  lemma OperandIsDefined(e: Expr, mode: Mode, env: Env)
    requires e.LeftWidth? && e.left.Operand? && OperandsDefined(e, TestWidth(e, mode).ann, env)
    ensures Defined(ReadSignal(env(e.left.id), e.left.width, e.left.twoState))
  {
    hide TestWidth;
  }

  lemma FromIntDefined(n: int, w: nat)
    ensures Defined(FromInt(n, w))
  {
  }

  /** `8'hFF << 8`, and the same times `'hFFFFFFFFF`. */
  function SizedShift(): Expr { LeftWidth(Shift(Shl), Number(Ones(8, true)), Eight()) }
  function ProductOfSizedShift(): Expr { Binary(Mul, SizedShift(), Number(Ones(36, false))) }

  /** The test calls the 44 bits of the product lossless; the exact value is far larger. */
  lemma SizedShiftDoesNotFit(env: Env)
    ensures TestWidth(SizedShift(), LOSSLESS).width == 8 && Promised(TestWidth(SizedShift(), LOSSLESS))
    ensures var e := ProductOfSizedShift();
      var t := TestWidth(e, SIZED);
      Promised(t) && t.width == 44 && !Fits(Value(e, t.ann, false, env), t.width, false)
  {
    hide FromInt, CastNumber, ToInt, Eval, Pow2, Elaborate, EvalExpr, RightSelf, RightValue, Fits;
    var e := ProductOfSizedShift();
    var t := TestWidth(e, SIZED);
    EightIsConstant();
    SizedShiftWidth();
    ConstantRightMeaning(Shift(Shl), Eight(), 8, t.ann.L(), env);
    OnesValue(8, true);
    OnesValue(36, false);
    assert Value(e, t.ann, false, env) == ((Pow2(8) - 1) * Pow2(8)) * (Pow2(36) - 1);
    ShiftedTooLarge();
  }

  lemma SizedShiftWidth()
    ensures var t := TestWidth(ProductOfSizedShift(), SIZED);
      && t.width == 44 && t.mode == LOSSLESS && t.ann.Ann?
      && t.ann.l == TestWidth(SizedShift(), LOSSLESS).ann && TestWidth(SizedShift(), LOSSLESS).width == 8
      && TestWidth(SizedShift(), LOSSLESS).mode == LOSSLESS && t.ann.l.R() == TestWidth(Eight(), SIZED).ann
  {
    hide RightValue, EvalExpr, Elaborate, FromInt;
    EightIsConstant();
    var r := ProductOfSizedShift().right;
    assert TestWidth(r, SIZED) == TestNumber(r.lit, SIZED);
    assert TestWidth(r, SIZED).mode == LOSSLESS && TestWidth(r, SIZED).width == 36;
  }

  lemma ShiftedTooLarge()
    ensures !Fits(((Pow2(8) - 1) * Pow2(8)) * (Pow2(36) - 1), 44, false)
  {
    hide Pow2;
    Sixteen();
    Pow2Add(4, 4);
    Pow2Add(36, 8);
    Pow2Monotone(4, 36);
    assert (Pow2(8) - 1) * Pow2(8) == 65280;
  }

  /** `(8'hFF + 8'hFF) << 8` in an expression that wants no bit lost: the sum is tested for itself and has no room. */
  lemma SumUnderShiftIsNotExact(env: Env)
    ensures var e := LeftWidth(Shift(Shl), Binary(Add, Number(Ones(8, true)), Number(Ones(8, true))), Eight());
      Promised(TestWidth(e, LOSSLESS)) && !Exact(e, TestWidth(e, LOSSLESS), false, env)
  {
    hide FromInt, CastNumber, ToInt, Eval, Pow2, Elaborate, EvalExpr, RightSelf, RightValue;
    var e := LeftWidth(Shift(Shl), Binary(Add, Number(Ones(8, true)), Number(Ones(8, true))), Eight());
    var t := TestWidth(e, LOSSLESS);
    EightIsConstant();
    ConstantRightMeaning(Shift(Shl), Eight(), 8, t.ann, env);
    OnesValue(8, true);
    Sixteen();
    Pow2Add(4, 4);
    assert t.width == 8;
    assert Value(e, t.ann, false, env) == 2 * (Pow2(8) - 1) * Pow2(8);
  }

  /** Main result: a literal shifted by a variable is tested at its own width or that of an integer, which is
      lossless for every amount exactly when it is for the largest. */
  lemma VariableShiftExactlyWhen(lit: Literal, id: nat, ow: nat, rs: bool, two: bool, mode: Mode, s: bool)
    requires |lit.bits| > 0 && Defined(lit.bits) && !lit.isSingle && lit.hasSign == s && 0 < ow < LONG_BITS
    requires Promised(TestWidth(LeftWidth(Shift(Shl), Number(lit), Operand(id, ow, rs, two)), mode))
    ensures var e := LeftWidth(Shift(Shl), Number(lit), Operand(id, ow, rs, two));
      && TestWidth(e, mode).width == VariableShiftWidth(lit)
      && (AlwaysExact(e, mode, s) <==> Fits(LiteralValue(lit, s) * Pow2(Pow2(ow) - 1), VariableShiftWidth(lit), s))
  {
    hide Exact, Elaborate, EvalExpr, RightValue, TestWidth, OperandsDefined, Fits, ToInt, VariableRight, Pow2, Amount;
    var r := Operand(id, ow, rs, two);
    var e := LeftWidth(Shift(Shl), Number(lit), r);
    VariableOperand(id, ow, rs, two);
    VariableShiftTested(lit, r, mode);
    if Fits(LiteralValue(lit, s) * Pow2(Pow2(ow) - 1), VariableShiftWidth(lit), s) {
      forall env: Env | OperandsDefined(e, TestWidth(e, mode).ann, env) ensures Exact(e, TestWidth(e, mode), s, env) {
        VariableShiftExact(e, mode, s, env);
      }
    }
    if AlwaysExact(e, mode, s) {
      var env: Env := _ => Fill(V1, ow);
      LargestAmount(lit, id, ow, rs, two, mode, s, env);
      RingExact(e, TestWidth(e, mode), s, env);
    }
  }

  lemma VariableOperand(id: nat, ow: nat, rs: bool, two: bool)
    requires 0 < ow < LONG_BITS
    ensures VariableRight(Operand(id, ow, rs, two)) && LargestRight(Operand(id, ow, rs, two)) == Pow2(ow) - 1
  {
  }

  lemma LargestAmount(lit: Literal, id: nat, ow: nat, rs: bool, two: bool, mode: Mode, s: bool, env: Env)
    requires |lit.bits| > 0 && Defined(lit.bits) && ow > 0 && env(id) == Fill(V1, ow)
    ensures var e := LeftWidth(Shift(Shl), Number(lit), Operand(id, ow, rs, two));
      var t := TestWidth(e, mode);
      && OperandsDefined(e, t.ann, env) && Prunable(e) && NeedWidth(e) == 1
      && Value(e, t.ann, s, env) == LiteralValue(lit, s) * Pow2(Pow2(ow) - 1)
  {
    hide RightValue, ToInt, Pow2;
    var r := Operand(id, ow, rs, two);
    var e := LeftWidth(Shift(Shl), Number(lit), r);
    var a := TestWidth(e, mode).ann;
    ToNatFill(V1, ow);
    assert a.R() == TestWidth(r, SIZED).ann;
    assert Eval(RightSelf(r, a), env) == ReadSignal(env(id), ow, two) == Fill(V1, ow);
  }

  // ----- a shift by a variable amount -----

  /** The width of `<<` falls below that of its left operand exactly when the shift amount is not
      constant and the left operand, wider than an integer, left the SIZED mode. */
  lemma ShiftNarrowsExactlyWhen(l: Expr, r: Expr, mode: Mode)
    requires TestWidth(r, SIZED).width > 0
    ensures var e := LeftWidth(Shift(Shl), l, r);
      var lt := TestWidth(l, SIZED);
      TestWidth(e, mode).width < lt.width <==>
        && (if mode == SIZED then lt.mode else mode).AtLeast(EXPAND) && !TestedRight(r).NConst?
        && lt.width > INTEGER_WIDTH && lt.mode != SIZED
  {
    hide RightValue, EvalExpr, Elaborate;
    var e := LeftWidth(Shift(Shl), l, r);
    var lt, rt, rp := TestWidth(l, SIZED), TestWidth(r, SIZED), TestedRight(r);
    assert TestWidth(e, mode) == FinishLeftWidth(Shift(Shl), l, mode, lt, rt, rp);
    if !rp.NConst? { GuessIsPositive(rt.width, rt.ann.S(), rp); }
  }

  lemma GuessIsPositive(w: nat, signed: bool, rp: NetExpr)
    requires w > 0 && !rp.NConst?
    ensures RightValue(Shift(Shl), w, signed, rp) > 0
  {
    assert Pow2(w) == 2 * Pow2(w - 1);
    assert Pow2(LONG_BITS - 1) == 2 * Pow2(LONG_BITS - 2);
  }

  /** `'hFFFFFFFFF << x`, with a one-bit `x`. */
  function ShiftOfWide(id: nat): Expr { LeftWidth(Shift(Shl), Number(Ones(36, false)), Operand(id, 1, false, true)) }

  /** The test calls its 32 bits lossless; the exact value never fits them. */
  lemma ShiftOfWideDoesNotFit(id: nat, env: Env)
    ensures var e := ShiftOfWide(id);
      var t := TestWidth(e, SIZED);
      Promised(t) && t.width == INTEGER_WIDTH && !Fits(Value(e, t.ann, false, env), t.width, false)
  {
    hide Eval, Pow2, Elaborate, RightValue, FromInt, Fits, EvalExpr, ToInt, ToNat, LiteralValue;
    var e := ShiftOfWide(id);
    var t := TestWidth(e, SIZED);
    ShiftOfWideWidth(id);
    OnesValue(36, false);
    var n := Amount(e.right, t.ann, env);
    assert Value(e, t.ann, false, env) == (Pow2(36) - 1) * Pow2(n);
    WideDoesNotFit(n);
  }

  lemma ShiftOfWideWidth(id: nat)
    ensures var t := TestWidth(ShiftOfWide(id), SIZED);
      t.width == INTEGER_WIDTH && t.mode == LOSSLESS && t.ann.Ann?
  {
    hide Elaborate, RightValue;
    var e := ShiftOfWide(id);
    var lt := TestWidth(e.left, SIZED);
    assert lt == TestNumber(e.left.lit, SIZED) && lt.mode == LOSSLESS && lt.width == 36;
    NotConstant(id);
    ShiftNarrowsExactlyWhen(e.left, e.right, SIZED);
  }

  lemma NotConstant(id: nat)
    ensures !TestedRight(Operand(id, 1, false, true)).NConst?
  {
  }

  lemma WideDoesNotFit(n: nat)
    ensures !Fits((Pow2(36) - 1) * Pow2(n), INTEGER_WIDTH, false)
  {
    hide Pow2;
    Sixteen();
    Pow2Add(32, 4);
    Pow2Monotone(4, 32);
    assert (Pow2(36) - 1) * (Pow2(n) - 1) >= 0;
  }
}
