/** Lossless sizing: once the width test ends in EXPAND or LOSSLESS mode, the returned width
    holds the exact integer value, and evaluating at any larger width yields that value. */
module Lossless {
  import opened Logic4
  import opened VecOps
  import opened NetExprs
  import opened WidthTest
  import opened Coherence
  import opened ElabMeaning
  import opened Pruning

  // ----- bounds on exact results -----

  lemma SumFits(x: int, y: int, wx: nat, wy: nat, signed: bool)
    requires Fits(x, wx, signed) && Fits(y, wy, signed)
    ensures Fits(x + y, Max(wx, wy) + 1, signed)
    ensures signed ==> Fits(x - y, Max(wx, wy) + 1, signed)
  {
    FitsWider(x, wx, Max(wx, wy), signed);
    FitsWider(y, wy, Max(wx, wy), signed);
  }

  lemma MulBounds(x: int, y: int, p: int, q: int)
    requires -p <= x <= p && -q <= y <= q
    ensures -(p * q) <= x * y <= p * q
  {
    assert (p - x) * (q + y) >= 0 && (p + x) * (q - y) >= 0;
    assert (p - x) * (q - y) >= 0 && (p + x) * (q + y) >= 0;
  }

  lemma MulBelow(x: int, y: int, p: int, q: int)
    requires 0 <= x < p && 0 <= y < q
    ensures 0 <= x * y < p * q
  {
    assert x * y <= x * q;
    assert (p - x) * q > 0;
  }

  lemma ProductFits(x: int, y: int, wx: nat, wy: nat, signed: bool)
    requires Fits(x, wx, signed) && Fits(y, wy, signed)
    ensures Fits(x * y, wx + wy, signed)
  {
    if signed {
      Pow2Add(wx - 1, wy - 1);
      MulBounds(x, y, Pow2(wx - 1), Pow2(wy - 1));
      assert Pow2(wx + wy - 1) == 2 * Pow2(wx + wy - 2);
    } else {
      Pow2Add(wx, wy);
      MulBelow(x, y, Pow2(wx), Pow2(wy));
    }
  }

  // ----- no bit more than the operands need -----

  /** The two operand values that need most room. */
  function Widest(op: BinOp, wx: nat, wy: nat, s: bool): (int, int)
    requires wx > 0 && wy > 0
  {
    if !s then (Pow2(wx) - 1, Pow2(wy) - 1)
    else if op.Sub? then (Pow2(wx - 1) - 1, 0 - Pow2(wy - 1))
    else (0 - Pow2(wx - 1), 0 - Pow2(wy - 1))
  }

  lemma NeedsAllBits(n: int, w: nat, k: nat, s: bool)
    requires w > 0 && Fits(n, w, s) && !Fits(n, w - 1, s)
    ensures Fits(n, k, s) <==> k >= w
  {
    if k >= w { FitsWider(n, w, k, s); } else if Fits(n, k, s) { FitsWider(n, k, w - 1, s); }
  }

  lemma SumIsTight(op: BinOp, wx: nat, wy: nat, s: bool)
    requires wx > 0 && wy > 0 && (op.Add? || (op.Sub? && s))
    ensures var v := Widest(op, wx, wy, s);
      Fits(v.0, wx, s) && Fits(v.1, wy, s) && !Fits(IntBinary(op, v.0, v.1), Max(wx, wy), s)
  {
    assert Pow2(wx) == 2 * Pow2(wx - 1) && Pow2(wy) == 2 * Pow2(wy - 1);
  }

  lemma ProductIsTight(wx: nat, wy: nat, s: bool)
    requires wx > 0 && wy > 0 && (s || (wx > 1 && wy > 1))
    ensures var v := Widest(Mul, wx, wy, s);
      Fits(v.0, wx, s) && Fits(v.1, wy, s) && !Fits(v.0 * v.1, wx + wy - 1, s)
  {
    var p, q := Pow2(wx - 1), Pow2(wy - 1);
    Pow2Add(wx - 1, wy - 1);
    ProductOfExtremes(p, q);
    assert Pow2(wx + wy - 1) == 2 * Pow2(wx + wy - 2);
    assert Pow2(wx) == 2 * p && Pow2(wy) == 2 * q;
    if !s {
      assert p == 2 * Pow2(wx - 2) && q == 2 * Pow2(wy - 2);
    }
  }

  lemma ProductOfExtremes(p: int, q: int)
    ensures (0 - p) * (0 - q) == p * q
    ensures p >= 2 && q >= 2 ==> (2 * p - 1) * (2 * q - 1) >= 2 * (p * q)
  {
    if p >= 2 && q >= 2 {
      assert (p - 1) * (q - 1) >= 1;
      assert (p - 1) * (q - 1) == p * q - p - q + 1;
      assert (2 * p - 1) * (2 * q - 1) == 4 * (p * q) - 2 * p - 2 * q + 1;
    }
  }

  /** A factor of one bit adds nothing. */
  lemma OneBitFactor(x: int, y: int, wx: nat, wy: nat)
    requires Fits(x, wx, false) && Fits(y, wy, false) && wx > 0 && wy > 0 && (wx == 1 || wy == 1)
    ensures Fits(x * y, Max(wx, wy), false)
  {
    assert Pow2(1) == 2;
    FitsWider(x, wx, Max(wx, wy), false);
    FitsWider(y, wy, Max(wx, wy), false);
  }

  /** The operators for which every pair of operand values needs its room. */
  predicate Grows(op: BinOp, s: bool) { op.Add? || op.Mul? || (op.Sub? && s) }

  /** Main result: the width of a sum, difference or product in a lossless mode is the least that holds it for all
      values that the operands may have; only an unsigned product with a factor of one bit gets one bit too many. */
  lemma WidthIsLeast(op: BinOp, l: Expr, r: Expr, mode: Mode, s: bool, k: nat)
    requires Grows(op, s) && TestPair(Binary(op, l, r), r, l, mode).mode in {EXPAND, LOSSLESS}
    requires var p := TestPair(Binary(op, l, r), r, l, mode); p.first.width > 0 && p.second.width > 0
    ensures var p, t := TestPair(Binary(op, l, r), r, l, mode), TestWidth(Binary(op, l, r), mode);
      var spare := if op.Mul? && !s && (p.first.width == 1 || p.second.width == 1) then 1 else 0;
      (forall x, y :: Fits(x, p.second.width, s) && Fits(y, p.first.width, s) ==> Fits(IntBinary(op, x, y), k, s))
        <==> k >= t.width - spare
  {
    hide Fits, TestWidth, TestPair;
    var p := TestPair(Binary(op, l, r), r, l, mode);
    var wx, wy := p.second.width, p.first.width;
    assert TestWidth(Binary(op, l, r), mode) == FinishBinary(op, p) by { TestBinaryUnfolds(op, l, r, mode); }
    var w := FinishBinary(op, p).width;
    if op.Mul? && !s && (wx == 1 || wy == 1) {
      assert w - 1 == Max(wx, wy);
      OneBitIsLeast(wx, wy, k);
    } else {
      var v := Widest(op, wx, wy, s);
      if op.Mul? { ProductIsTight(wx, wy, s); } else { SumIsTight(op, wx, wy, s); }
      BinaryFits(op, v.0, v.1, p, s);
      NeedsAllBits(IntBinary(op, v.0, v.1), w, k, s);
      if k >= w {
        forall x, y | Fits(x, wx, s) && Fits(y, wy, s) ensures Fits(IntBinary(op, x, y), k, s) {
          BinaryFits(op, x, y, p, s);
          FitsWider(IntBinary(op, x, y), w, k, s);
        }
      }
    }
  }

  lemma OneBitIsLeast(wx: nat, wy: nat, k: nat)
    requires wx > 0 && wy > 0 && (wx == 1 || wy == 1)
    ensures (forall x, y :: Fits(x, wx, false) && Fits(y, wy, false) ==> Fits(IntBinary(Mul, x, y), k, false))
              <==> k >= Max(wx, wy)
  {
    var v := (Pow2(wx) - 1, Pow2(wy) - 1);
    assert Pow2(1) == 2 && v.0 * v.1 == Pow2(Max(wx, wy)) - 1;
    assert Fits(v.0, wx, false) && Fits(v.1, wy, false) && IntBinary(Mul, v.0, v.1) == v.0 * v.1;
    assert Pow2(Max(wx, wy)) == 2 * Pow2(Max(wx, wy) - 1);
    OneBitFactor(v.0, v.1, wx, wy);
    NeedsAllBits(v.0 * v.1, Max(wx, wy), k, false);
    if k >= Max(wx, wy) {
      forall x, y | Fits(x, wx, false) && Fits(y, wy, false) ensures Fits(IntBinary(Mul, x, y), k, false) {
        OneBitFactor(x, y, wx, wy);
        FitsWider(x * y, Max(wx, wy), k, false);
      }
    }
  }

  lemma TestBinaryUnfolds(op: BinOp, l: Expr, r: Expr, mode: Mode)
    ensures TestWidth(Binary(op, l, r), mode) == FinishBinary(op, TestPair(Binary(op, l, r), r, l, mode))
  {
  }

  lemma ShiftIsTight(w: nat, r: nat, s: bool, k: nat)
    requires w > 0
    ensures (forall x :: Fits(x, w, s) ==> Fits(x * Pow2(r), k, s)) <==> k >= w + r
  {
    var v := if s then 0 - Pow2(w - 1) else Pow2(w) - 1;
    Pow2Add(w - 1, r);
    assert Fits(v, w, s);
    LeftShiftFits(v, w, r, s);
    NotNarrower(w, r, s);
    NeedsAllBits(v * Pow2(r), w + r, k, s);
    if k >= w + r {
      forall x | Fits(x, w, s) ensures Fits(x * Pow2(r), k, s) {
        LeftShiftFits(x, w, r, s);
        FitsWider(x * Pow2(r), w + r, k, s);
      }
    }
  }

  lemma NotNarrower(w: nat, r: nat, s: bool)
    requires w > 0
    ensures var v := if s then 0 - Pow2(w - 1) else Pow2(w) - 1; !Fits(v * Pow2(r), w + r - 1, s)
  {
    Pow2Add(w - 1, r);
    assert Pow2(w) == 2 * Pow2(w - 1);
    Pow2Monotone(r, w + r - 1);
    ScaledExtremes(Pow2(w - 1), Pow2(r));
  }

  lemma ScaledExtremes(p: int, m: int)
    ensures (0 - p) * m == 0 - p * m && (2 * p - 1) * m == 2 * (p * m) - m
  {
  }

  // ----- powers -----

  lemma {:induction false} PowBounds(b: int, r: nat, p: nat)
    requires 0 - Pow2(p) <= b <= Pow2(p)
    ensures 0 - Pow2(p * r) <= Pow(b, r) <= Pow2(p * r)
  {
    if r > 0 {
      PowBounds(b, r - 1, p);
      assert p * r == p + p * (r - 1);
      Pow2Add(p, p * (r - 1));
      MulBounds(b, Pow(b, r - 1), Pow2(p), Pow2(p * (r - 1)));
    }
  }

  lemma {:induction false} PowBelow(b: int, r: nat, w: nat)
    requires 0 <= b < Pow2(w) && r >= 1
    ensures 0 <= Pow(b, r) < Pow2(w * r)
  {
    if r == 1 {
      assert w * r == w && Pow(b, 1) == b * Pow(b, 0);
    } else {
      PowBelow(b, r - 1, w);
      assert w * r == w + w * (r - 1);
      Pow2Add(w, w * (r - 1));
      MulBelow(b, Pow(b, r - 1), Pow2(w), Pow2(w * (r - 1)));
    }
  }

  /** The width given to a power holds it, for every base of `w` bits: when signed always, when
      unsigned exactly if the exponent is not zero. */
  lemma PowerWidthIsBound(w: nat, r: nat, signed: bool)
    requires w > 0
    ensures (signed || r >= 1) <==>
      (forall b {:trigger Pow(b, r)} :: Fits(b, w, signed) ==> Fits(Pow(b, r), PowerWidth(w, r, signed), signed))
  {
    if signed {
      forall b | Fits(b, w, true) ensures Fits(Pow(b, r), PowerWidth(w, r, true), true) {
        PowBounds(b, r, w - 1);
        assert Pow2((w - 1) * r + 1) == 2 * Pow2((w - 1) * r);
      }
    } else if r >= 1 {
      forall b | Fits(b, w, false) ensures Fits(Pow(b, r), PowerWidth(w, r, false), false) {
        PowBelow(b, r, w);
      }
    } else {
      assert Fits(0, w, false) && Pow(0, r) == 1;
      assert PowerWidth(w, r, false) == 0;
      assert !Fits(Pow(0, r), PowerWidth(w, r, false), false);
    }
  }

  /** The most negative base shows that the signed bound is tight for even exponents. */
  lemma PowerWidthIsTight(w: nat, r: nat)
    requires w > 0 && r >= 2 && r % 2 == 0
    ensures Fits(0 - Pow2(w - 1), w, true)
    ensures !Fits(Pow(0 - Pow2(w - 1), r), PowerWidth(w, r, true) - 1, true)
  {
    EvenPowOfMin(w - 1, r);
  }

  lemma {:induction false} EvenPowOfMin(p: nat, r: nat)
    requires r % 2 == 0
    ensures Pow(0 - Pow2(p), r) == Pow2(p * r)
  {
    if r > 0 {
      EvenPowOfMin(p, r - 2);
      var m := Pow2(p);
      assert Pow(0 - m, r) == (0 - m) * ((0 - m) * Pow(0 - m, r - 2));
      assert p * r == p + (p + p * (r - 2));
      Pow2Add(p, p * (r - 2));
      Pow2Add(p, p + p * (r - 2));
      SquareSign(m, Pow2(p * (r - 2)));
    }
  }

  lemma SquareSign(m: int, x: int)
    ensures (0 - m) * ((0 - m) * x) == m * (m * x)
  {
  }

  lemma LeftShiftFits(x: int, w: nat, r: nat, signed: bool)
    requires Fits(x, w, signed)
    ensures Fits(x * Pow2(r), w + r, signed)
  {
    if signed {
      Pow2Add(w - 1, r);
      ScaleBounds(x, Pow2(w - 1), Pow2(r));
    } else {
      Pow2Add(w, r);
      ScaleBounds(x, Pow2(w), Pow2(r));
    }
  }

  lemma ScaleBounds(x: int, b: nat, m: nat)
    requires m >= 1
    ensures x < b ==> x * m < b * m
    ensures 0 - b <= x ==> 0 - b * m <= x * m
    ensures 0 <= x ==> 0 <= x * m
  {
    assert x < b ==> (b - x) * m > 0;
    assert 0 - b <= x ==> (x + b) * m >= 0;
  }

  // ----- constant powers of literals -----

  lemma {:induction false} SigBitsBound(n: nat)
    ensures n < Pow2(SigBits(n))
  {
    if n > 0 { SigBitsBound(n / 2); }
  }

  lemma SignedLenFits(n: int)
    ensures Fits(n, SignedLen(n), true)
  {
    SigBitsBound(if n < 0 then -n - 1 else n);
  }

  lemma {:induction false} UnsignedPowLenFits(b: nat, len: nat, e: nat)
    requires b < Pow2(len)
    ensures 0 <= Pow(b, e) < Pow2(UnsignedPowLen(b, len, e))
    decreases e
  {
    hide ProductLen, Pow2;
    if e == 0 {
      assert Pow2(2) == 4 by { Pow2OfTwo(); }
    } else if e % 2 == 1 {
      var n, p := UnsignedPowLen(b, len, e - 1), NatPow(b, e - 1);
      UnsignedPowLenFits(b, len, e - 1);
      ProductLenFits(b, len, p, n);
      assert Pow(b, e) == b * p;
    } else {
      var n, p := UnsignedPowLen(b, len, e / 2), NatPow(b, e / 2);
      UnsignedPowLenFits(b, len, e / 2);
      ProductLenFits(p, n, p, n);
      PowAdd(b, e / 2, e / 2);
    }
  }

  lemma Pow2OfTwo()
    ensures Pow2(2) == 4
  {
  }

  lemma {:induction false} PowAdd(b: int, i: nat, j: nat)
    ensures Pow(b, i + j) == Pow(b, i) * Pow(b, j)
  {
    if i > 0 {
      PowAdd(b, i - 1, j);
      calc {
        Pow(b, i + j);
        b * Pow(b, i - 1 + j);
        b * (Pow(b, i - 1) * Pow(b, j));
        (b * Pow(b, i - 1)) * Pow(b, j);
      }
    }
  }

  lemma ProductLenFits(a: nat, aLen: nat, b: nat, bLen: nat)
    requires a < Pow2(aLen) && b < Pow2(bLen)
    ensures a * b < Pow2(ProductLen(a, aLen, b, bLen))
  {
    Pow2Add(aLen, bLen);
    MulBelow(a, b, Pow2(aLen), Pow2(bLen));
    SigBitsBound(a * b);
  }

  // ----- the expressions the claim covers -----

  predicate IsLeaf(e: Expr) { e.Number? || e.Operand? }

  /** The left operand of a shift or power is tested in a mode of its own: it must have turned
      lossless by itself, or be a plain operand. */
  predicate OwnLossless(l: Expr) { IsLeaf(l) || TestWidth(l, SIZED).mode == LOSSLESS }

  /** The right operand, as the width test evaluates it, is the constant `k`. */
  predicate ConstantRight(r: Expr, k: nat)
  {
    var rt, rp := TestWidth(r, SIZED), TestedRight(r);
    && rp.NConst? && Defined(rp.bits) && 0 < rt.width == rt.ann.W() < LONG_BITS
    && k <= WIDTH_CAP && ToInt(rp.bits, rp.signed) == k == ToNat(rp.bits)
  }

  /** A sized literal keeps its size when it is raised to a constant: the power has to fit that. */
  predicate SizedBaseFits(l: Expr, k: nat, s: bool)
  {
    l.Number? && l.lit.hasLen ==> Fits(Pow(LiteralValue(l.lit, s), k), |l.lit.bits|, s)
  }

  /** The right operand is no constant; the width test then assumes its largest value. */
  predicate VariableRight(r: Expr)
  {
    var rt := TestWidth(r, SIZED);
    !TestedRight(r).NConst? && 0 < rt.width == rt.ann.W() < LONG_BITS && NeedWidth(r) <= rt.width
  }

  function LargestRight(r: Expr): nat { Pow2(TestWidth(r, SIZED).width) - 1 }

  /** A left operand that keeps its size when it is shifted by a constant: only a literal can have room. */
  predicate SizedShiftFits(l: Expr, k: nat, s: bool)
  {
    || TestWidth(l, SIZED).mode != SIZED || k == 0
    || (l.Number? && Fits(LiteralValue(l.lit, s) * Pow2(k), |l.lit.bits|, s))
  }

  /** The width of a literal shifted by a variable amount: its own if it is sized, else that of an integer. */
  function VariableShiftWidth(lit: Literal): nat { if lit.hasLen then |lit.bits| else INTEGER_WIDTH }

  ghost predicate ShiftSized(l: Expr, r: Expr, s: bool)
  {
    || (exists k: nat :: ConstantRight(r, k) && SizedShiftFits(l, k, s))
    || (l.Number? && VariableRight(r)
        && Fits(LiteralValue(l.lit, s) * Pow2(LargestRight(r)), VariableShiftWidth(l.lit), s))
  }

  ghost predicate PowerSized(l: Expr, r: Expr, s: bool)
  {
    || (exists k: nat :: k >= 1 && ConstantRight(r, k) && SizedBaseFits(l, k, s))
    || (VariableRight(r) && !TestWidth(r, SIZED).ann.S()
        && PowerWidth(TestWidth(l, SIZED).width, LargestRight(r), s) <= INTEGER_WIDTH)
  }

  /** Expressions of one signedness, over operators that the width test sizes losslessly. */
  ghost predicate Exactable(e: Expr, s: bool)
  {
    match e
    case Number(lit) => |lit.bits| > 0 && !lit.isSingle && lit.hasSign == s
    case Operand(_, w, sg, _) => w > 0 && sg == s
    case Binary(op, l, r) =>
      && (op.Add? || op.Mul? || IsBitwise(op) || (op.Sub? && s))
      && Exactable(l, s) && Exactable(r, s)
    case Compare(_, _, _) => !s
    case Reduction(_, _) => !s
    case Ternary(_, l, r) => Exactable(l, s) && Exactable(r, s)
    case Unary(op, x) => (op.Plus? || (op.Not? && s)) && Exactable(x, s)
    case LeftWidth(op, l, r) =>
      && Exactable(l, s) && OwnLossless(l)
      && match op
         case Shift(Shl) => ShiftSized(l, r, s)
         case Shift(Shr) => !s
         case Shift(Sar) => true
         case Power => PowerSized(l, r, s)
  }

  /** The width test ended in a mode that promises a lossless width. */
  predicate Promised(t: Test) { t.mode == EXPAND || t.mode == LOSSLESS }

  /** The exact value fits the returned width, and comes out at every width from there on. */
  ghost predicate Exact(e: Expr, t: Test, s: bool, env: Env)
  {
    && t.width >= NeedWidth(e) && t.width > 0
    && Fits(Value(e, t.ann, s, env), t.width, s)
    && forall w {:trigger Elaborate(e, t.ann, s, w)} :: t.width <= w <= ULONG_MAX ==>
         Eval(Elaborate(e, t.ann, s, w), env) == FromInt(Value(e, t.ann, s, env), w)
  }

  lemma {:induction false} ExactableSign(e: Expr, s: bool)
    requires Exactable(e, s)
    ensures SignOf(e) == s
  {
    match e {
      case Binary(_, l, r) => ExactableSign(l, s); ExactableSign(r, s);
      case Ternary(_, l, r) => ExactableSign(l, s); ExactableSign(r, s);
      case Unary(_, x) => ExactableSign(x, s);
      case LeftWidth(_, l, _) => ExactableSign(l, s);
      case _ =>
    }
  }

  /** In a pair whose mode stays promised, each operand was last tested in a mode that stayed promised. */
  lemma PairPromised(parent: Expr, x: Expr, y: Expr, mode: Mode) returns (mx: Mode, my: Mode)
    requires x < parent && y < parent
    requires TestPair(parent, x, y, mode).mode in {EXPAND, LOSSLESS}
    ensures var p := TestPair(parent, x, y, mode);
      && p.first == TestWidth(x, mx) && Promised(p.first)
      && p.second == TestWidth(y, my) && Promised(p.second)
  {
    hide TestWidth;
    var x0 := TestWidth(x, mode);
    my := x0.mode;
    var y0 := TestWidth(y, my);
    mx := if y0.mode.AtLeast(LOSSLESS) && !x0.mode.AtLeast(LOSSLESS) then y0.mode else mode;
    ModeRises(x, mode);
    ModeRises(y, my);
    ModeRises(x, y0.mode);
  }

  lemma LeafExact(e: Expr, mode: Mode, s: bool, env: Env)
    requires IsLeaf(e) && Exactable(e, s) && OperandsDefined(e, TestWidth(e, mode).ann, env)
    ensures Exact(e, TestWidth(e, mode), s, env)
  {
    hide Eval, ReadSignal, ToInt, FromInt, CastNumber;
    var t := TestWidth(e, mode);
    match e {
      case Number(lit) =>
        ToIntFits(lit.bits, s);
        FitsWider(LiteralValue(lit, s), |lit.bits|, t.width, s);
      case Operand(id, wid, _, two) => ToIntFits(ReadSignal(env(id), wid, two), s);
    }
    forall w | t.width <= w <= ULONG_MAX
      ensures Eval(Elaborate(e, t.ann, s, w), env) == FromInt(Value(e, t.ann, s, env), w)
    {
      RingMeaning(e, t.ann, s, w, env);
    }
  }

  /** A node promises a lossless width only if its operands did. */
  lemma FinishKeepsMode(op: BinOp, p: PairTest)
    ensures Promised(FinishBinary(op, p)) ==> p.mode in {EXPAND, LOSSLESS}
    ensures FinishBinary(op, p).ann.L() == p.second.ann && FinishBinary(op, p).ann.R() == p.first.ann
    ensures Promised(FinishTernary(p)) ==> p.mode in {EXPAND, LOSSLESS}
    ensures FinishTernary(p).ann.L() == p.first.ann && FinishTernary(p).ann.R() == p.second.ann
  {
  }

  lemma BinaryFits(op: BinOp, x: int, y: int, p: PairTest, s: bool)
    requires op.Add? || op.Mul? || IsBitwise(op) || (op.Sub? && s)
    requires p.mode in {EXPAND, LOSSLESS} && p.first.width > 0 && p.second.width > 0
    requires Fits(x, p.second.width, s) && Fits(y, p.first.width, s)
    ensures FinishBinary(op, p).width >= Max(p.first.width, p.second.width)
    ensures Fits(IntBinary(op, x, y), FinishBinary(op, p).width, s)
  {
    hide Fits, BitInt;
    var w := FinishBinary(op, p).width;
    match op {
      case Mul => ProductFits(x, y, p.second.width, p.first.width, s);
      case Add => SumFits(x, y, p.second.width, p.first.width, s);
      case Sub => SumFits(x, y, p.second.width, p.first.width, s);
      case _ =>
        FitsWider(x, p.second.width, w, s);
        FitsWider(y, p.first.width, w, s);
        BitwiseFits(op, x, y, w, s);
    }
  }

  lemma BinaryExact(op: BinOp, l: Expr, r: Expr, p: PairTest, s: bool, env: Env)
    requires Exact(r, p.first, s, env) && Exact(l, p.second, s, env)
    requires op.Add? || op.Mul? || IsBitwise(op) || (op.Sub? && s)
    requires p.mode in {EXPAND, LOSSLESS}
    ensures Exact(Binary(op, l, r), FinishBinary(op, p), s, env)
  {
    hide Eval, TestWidth, Elaborate, FromInt, VecBinary, EvalExpr, FinishBinary, Fits, IntBinary;
    var t, x, y := FinishBinary(op, p), Value(l, p.second.ann, s, env), Value(r, p.first.ann, s, env);
    FinishKeepsMode(op, p);
    BinaryFits(op, x, y, p, s);
    forall w | t.width <= w <= ULONG_MAX
      ensures Eval(Elaborate(Binary(op, l, r), t.ann, s, w), env) == FromInt(IntBinary(op, x, y), w)
    {
      MeaningBinary(op, l, r, t.ann, s, w, env);
      RingFromInt(op, x, y, w, s);
    }
  }

  lemma TernaryExact(c: Expr, l: Expr, r: Expr, p: PairTest, s: bool, env: Env)
    requires Exact(l, p.first, s, env) && Exact(r, p.second, s, env)
    requires IsDefinedBit(Truth(Eval(ElaborateSelf(c), env)))
    ensures Exact(Ternary(c, l, r), FinishTernary(p), s, env)
  {
    hide Eval, TestWidth, Elaborate, FromInt, VecTernary, EvalExpr, ElaborateSelf, Truth;
    var t, x, y := FinishTernary(p), Value(l, p.first.ann, s, env), Value(r, p.second.ann, s, env);
    FitsWider(x, p.first.width, t.width, s);
    FitsWider(y, p.second.width, t.width, s);
    var b := Truth(Eval(ElaborateSelf(c), env));
    forall w | t.width <= w <= ULONG_MAX
      ensures Eval(Elaborate(Ternary(c, l, r), t.ann, s, w), env) == FromInt(if b == V1 then x else y, w)
    {
      MeaningTernary(c, l, r, t.ann, s, w, env);
      PickMeaning(b, x, y, w);
    }
  }

  lemma UnaryExact(op: UnOp, x: Expr, t: Test, u: Test, s: bool, env: Env)
    requires Exact(x, t, s, env) && (op.Plus? || (op.Not? && s))
    requires u.width == t.width && u.ann.Ann? && u.ann.l == t.ann
    ensures Exact(Unary(op, x), u, s, env)
  {
    hide Eval, TestWidth, Elaborate, FromInt, VecUnary;
    forall w | u.width <= w <= ULONG_MAX
      ensures Eval(Elaborate(Unary(op, x), u.ann, s, w), env) == FromInt(Value(Unary(op, x), u.ann, s, env), w)
    {
      MeaningUnary(op, x, u.ann, s, w, env);
      UnaryMeaning(op, Value(x, t.ann, s, env), w);
    }
  }

  lemma OwnNodeExact(e: Expr, t: Test, env: Env)
    requires (e.Compare? || e.Reduction?) && t.width == 1 && Defined(Eval(OwnNode(e, t.ann), env))
    ensures Exact(e, t, false, env)
  {
    hide Eval, TestWidth, Elaborate, ToInt, FromInt, OwnNode;
    OwnNodeMeaning(e, t.ann, false, 1, env);
    ToIntFits(Eval(OwnNode(e, t.ann), env), false);
    forall w | t.width <= w <= ULONG_MAX
      ensures Eval(Elaborate(e, t.ann, false, w), env) == FromInt(Value(e, t.ann, false, env), w)
    {
      OwnNodeMeaning(e, t.ann, false, w, env);
      ExtendMeaning(Eval(OwnNode(e, t.ann), env), false, w);
    }
  }

  /** What the width test makes of a constant right operand, and what it evaluates to. */
  lemma ConstantRightMeaning(op: WideOp, r: Expr, k: nat, a: Ann, env: Env)
    requires ConstantRight(r, k) && a.R() == TestWidth(r, SIZED).ann
    ensures RightValue(op, TestWidth(r, SIZED).width, TestWidth(r, SIZED).ann.S(), TestedRight(r)) == k
    ensures Defined(Eval(RightSelf(r, a), env)) && Amount(r, a, env) == k
    ensures ToInt(Eval(RightSelf(r, a), env), RightSelf(r, a).signed) == k == Exponent(r, a, env)
  {
    hide Eval, TestWidth, Elaborate, ToInt, EvalExpr;
    var rp := TestedRight(r);
    EvalExprSame(RightSelf(r, a), env);
    EvalConst(rp.bits, rp.signed, env);
  }

  lemma ShiftExact(op: ShiftOp, l: Expr, r: Expr, lt: Test, t: Test, s: bool, env: Env)
    requires Exact(l, lt, s, env) && t.ann.Ann? && t.ann.l == lt.ann
    requires Defined(Eval(RightSelf(r, t.ann), env))
    requires op.Shl? ==> t.width == lt.width + Amount(r, t.ann, env)
    requires !op.Shl? ==> t.width == lt.width && (op.Sar? || !s)
    ensures Exact(LeftWidth(Shift(op), l, r), t, s, env)
  {
    hide Eval, TestWidth, Elaborate, FromInt, RightSelf, ShiftBy;
    var e, v, n := LeftWidth(Shift(op), l, r), Value(l, lt.ann, s, env), Amount(r, t.ann, env);
    if op.Shl? { LeftShiftFits(v, lt.width, n, s); } else { DivPow2Fits(v, lt.width, n, s); }
    forall w | t.width <= w <= ULONG_MAX
      ensures Eval(Elaborate(e, t.ann, s, w), env) == FromInt(Value(e, t.ann, s, env), w)
    {
      MeaningShift(op, l, r, t.ann, s, w, env);
      if op.Shl? {
        ShiftLeftFromInt(v, w, n, s);
      } else {
        FitsWider(v, lt.width, w, s);
        ShiftRightFromInt(op, v, w, n, s);
      }
    }
  }

  lemma PowerExact(l: Expr, r: Expr, lt: Test, t: Test, k: nat, s: bool, env: Env)
    requires Exact(l, lt, s, env) && t.ann.Ann? && t.ann.l == lt.ann && t.width >= lt.width
    requires Defined(Eval(RightSelf(r, t.ann), env))
    requires ToInt(Eval(RightSelf(r, t.ann), env), RightSelf(r, t.ann).signed) == k
    requires Fits(Pow(Value(l, lt.ann, s, env), k), t.width, s)
    ensures Exact(LeftWidth(Power, l, r), t, s, env)
  {
    hide Eval, TestWidth, Elaborate, FromInt, RightSelf, ToInt;
    var e, v := LeftWidth(Power, l, r), Value(l, lt.ann, s, env);
    forall w | t.width <= w <= ULONG_MAX
      ensures Eval(Elaborate(e, t.ann, s, w), env) == FromInt(Value(e, t.ann, s, env), w)
    {
      MeaningPower(l, r, t.ann, s, w, env);
      FitsWider(v, lt.width, w, s);
      ToIntFromInt(v, w, s);
    }
  }

  lemma PowerWidthGrows(w: nat, k: nat, s: bool)
    requires w > 0 && k >= 1
    ensures PowerWidth(w, k, s) >= w
  {
    assert (w - 1) * (k - 1) >= 0 && w * (k - 1) >= 0;
  }

  /** So is the width of a left shift by a constant whose left operand grows. */
  lemma ShiftWidthIsLeast(l: Expr, r: Expr, mode: Mode, n: nat, s: bool, k: nat)
    requires ConstantRight(r, n) && TestWidth(l, SIZED).mode != SIZED && TestWidth(l, SIZED).width > 0
    requires Promised(TestWidth(LeftWidth(Shift(Shl), l, r), mode))
    ensures var w := TestWidth(l, SIZED).width;
      (forall x :: Fits(x, w, s) ==> Fits(x * Pow2(n), k, s))
        <==> k >= TestWidth(LeftWidth(Shift(Shl), l, r), mode).width
  {
    hide Fits, Eval, Elaborate, EvalExpr, RightValue, ToInt;
    var t, rt := TestWidth(LeftWidth(Shift(Shl), l, r), mode), TestWidth(r, SIZED);
    assert RightValue(Shift(Shl), rt.width, rt.ann.S(), TestedRight(r)) == n by {
      ConstantRightMeaning(Shift(Shl), r, n, t.ann, NoSignals);
    }
    ShiftIsTight(TestWidth(l, SIZED).width, n, s, k);
  }

  /** Main result: an expression of one signedness that ends the width test in EXPAND or LOSSLESS
      mode is sized so that its exact value fits and is computed. */
  lemma {:induction false} LosslessIsExact(e: Expr, mode: Mode, s: bool, env: Env)
    requires Exactable(e, s) && Promised(TestWidth(e, mode))
    requires OperandsDefined(e, TestWidth(e, mode).ann, env)
    ensures Exact(e, TestWidth(e, mode), s, env)
    decreases e, 1
  {
    hide Eval, Elaborate, Exact, EvalExpr, RightValue, LosslessWidth, FinishBinary, FinishTernary,
         FinishLeftWidth, OwnNode, ElaborateSelf, ReadSignal, RightSelf;
    match e {
      case Binary(op, l, r) =>
        FinishKeepsMode(op, TestPair(e, r, l, mode));
        PairLossless(e, r, l, mode, s, env);
        BinaryExact(op, l, r, TestPair(e, r, l, mode), s, env);
      case Ternary(c, l, r) =>
        FinishKeepsMode(Add, TestPair(e, l, r, mode));
        PairLossless(e, l, r, mode, s, env);
        TernaryExact(c, l, r, TestPair(e, l, r, mode), s, env);
      case Unary(op, x) =>
        LosslessIsExact(x, mode, s, env);
        UnaryExact(op, x, TestWidth(x, mode), TestWidth(e, mode), s, env);
      case LeftWidth(op, l, r) => LeftWidthExact(e, mode, s, env);
      case Compare(_, _, _) => OwnNodeExact(e, TestWidth(e, mode), env);
      case Reduction(_, _) => OwnNodeExact(e, TestWidth(e, mode), env);
      case _ => LeafExact(e, mode, s, env);
    }
  }

  lemma PairLossless(parent: Expr, x: Expr, y: Expr, mode: Mode, s: bool, env: Env)
    requires x < parent && y < parent && Exactable(x, s) && Exactable(y, s)
    requires TestPair(parent, x, y, mode).mode in {EXPAND, LOSSLESS}
    requires OperandsDefined(x, TestPair(parent, x, y, mode).first.ann, env)
    requires OperandsDefined(y, TestPair(parent, x, y, mode).second.ann, env)
    ensures Exact(x, TestPair(parent, x, y, mode).first, s, env)
    ensures Exact(y, TestPair(parent, x, y, mode).second, s, env)
    decreases parent, 0
  {
    hide TestWidth, TestPair, Exact, Exactable, OperandsDefined;
    var mx, my := PairPromised(parent, x, y, mode);
    LosslessIsExact(x, mx, s, env);
    LosslessIsExact(y, my, s, env);
  }

  lemma LeftWidthExact(e: Expr, mode: Mode, s: bool, env: Env)
    requires e.LeftWidth? && Exactable(e, s) && Promised(TestWidth(e, mode))
    requires OperandsDefined(e, TestWidth(e, mode).ann, env)
    ensures Exact(e, TestWidth(e, mode), s, env)
    decreases e, 0
  {
    hide Eval, Elaborate, Exact, EvalExpr, RightValue, RightSelf;
    var l, r, t, lt := e.left, e.right, TestWidth(e, mode), TestWidth(e.left, SIZED);
    if IsLeaf(l) { LeafExact(l, SIZED, s, env); } else { LosslessIsExact(l, SIZED, s, env); }
    match e.wop {
      case Shift(Shl) =>
        if k: nat :| ConstantRight(r, k) && SizedShiftFits(l, k, s) {
          ConstantRightMeaning(e.wop, r, k, t.ann, env);
          if lt.mode != SIZED || k == 0 {
            ShiftExact(Shl, l, r, lt, t, s, env);
          } else {
            LiteralShiftExact(e, mode, s, env);
          }
        } else {
          VariableShiftExact(e, mode, s, env);
        }
      case Shift(op) => ShiftExact(op, l, r, lt, t, s, env);
      case Power =>
        if k: nat :| k >= 1 && ConstantRight(r, k) && SizedBaseFits(l, k, s) {
          ConstantRightMeaning(e.wop, r, k, t.ann, env);
          PowerFits(e, mode, k, s, env);
          PowerExact(l, r, lt, t, k, s, env);
        } else {
          VariablePowerFits(e, mode, s, env);
          PowerExact(l, r, lt, t, Exponent(r, t.ann, env), s, env);
        }
    }
  }

  /** Main result: an expression that only needs low bits is computed exactly as soon as its value fits. */
  lemma RingExact(e: Expr, t: Test, s: bool, env: Env)
    requires Prunable(e) && OperandsDefined(e, t.ann, env) && t.width >= NeedWidth(e) && t.width > 0
    ensures Exact(e, t, s, env) <==> Fits(Value(e, t.ann, s, env), t.width, s)
  {
    hide Eval, Elaborate, Fits, Value;
    if Fits(Value(e, t.ann, s, env), t.width, s) {
      forall w | t.width <= w <= ULONG_MAX
        ensures Eval(Elaborate(e, t.ann, s, w), env) == FromInt(Value(e, t.ann, s, env), w)
      {
        RingMeaning(e, t.ann, s, w, env);
      }
    }
  }

  lemma LiteralShiftExact(e: Expr, mode: Mode, s: bool, env: Env)
    requires e.LeftWidth? && e.wop == Shift(Shl) && e.left.Number? && OperandsDefined(e, TestWidth(e, mode).ann, env)
    requires TestWidth(e, mode).ann.Ann? && TestWidth(e, mode).width > 0
    requires Fits(LiteralValue(e.left.lit, s) * Pow2(Amount(e.right, TestWidth(e, mode).ann, env)),
                  TestWidth(e, mode).width, s)
    ensures Exact(e, TestWidth(e, mode), s, env)
  {
    hide Eval, Elaborate, Fits, RightValue, EvalExpr, Exact, RightSelf;
    RingExact(e, TestWidth(e, mode), s, env);
  }

  lemma VariableAmount(r: Expr, a: Ann, env: Env)
    requires VariableRight(r) && a.R() == TestWidth(r, SIZED).ann
    ensures Amount(r, a, env) <= LargestRight(r)
    ensures !a.R().S() ==>
      Exponent(r, a, env) == ToInt(Eval(RightSelf(r, a), env), RightSelf(r, a).signed) == Amount(r, a, env)
  {
    hide Eval, TestWidth, Elaborate, EvalExpr;
    ElaboratedShape(r, a.R(), a.R().S(), a.R().W());
    ToNatBound(Eval(RightSelf(r, a), env));
  }

  lemma SmallerShiftFits(x: int, n: nat, m: nat, w: nat, s: bool)
    requires Fits(x * Pow2(m), w, s) && n <= m
    ensures Fits(x * Pow2(n), w, s)
  {
    hide Pow2;
    Pow2Monotone(n, m);
    ScaledBetween(x, Pow2(n), Pow2(m));
  }

  lemma ScaledBetween(x: int, p: nat, q: nat)
    requires p <= q
    ensures x >= 0 ==> 0 <= x * p <= x * q
    ensures x <= 0 ==> x * q <= x * p <= 0
  {
    assert x >= 0 ==> x * (q - p) >= 0 && x * p >= 0;
    assert x <= 0 ==> x * (q - p) <= 0 && x * p <= 0;
  }

  lemma VariableShiftTested(lit: Literal, r: Expr, mode: Mode)
    requires |lit.bits| > 0 && !lit.isSingle && VariableRight(r)
    requires Promised(TestWidth(LeftWidth(Shift(Shl), Number(lit), r), mode))
    ensures TestWidth(LeftWidth(Shift(Shl), Number(lit), r), mode).width == VariableShiftWidth(lit)
  {
    hide Elaborate, EvalExpr;
    assert Pow2(TestWidth(r, SIZED).width) == 2 * Pow2(TestWidth(r, SIZED).width - 1);
  }

  lemma VariableShiftExact(e: Expr, mode: Mode, s: bool, env: Env)
    requires e.LeftWidth? && e.wop == Shift(Shl) && e.left.Number? && VariableRight(e.right) && Exactable(e.left, s)
    requires Fits(LiteralValue(e.left.lit, s) * Pow2(LargestRight(e.right)), VariableShiftWidth(e.left.lit), s)
    requires Promised(TestWidth(e, mode)) && OperandsDefined(e, TestWidth(e, mode).ann, env)
    ensures Exact(e, TestWidth(e, mode), s, env)
  {
    hide Eval, Elaborate, Fits, RightValue, EvalExpr, Exact, RightSelf, Amount, LargestRight;
    var t := TestWidth(e, mode);
    VariableShiftTested(e.left.lit, e.right, mode);
    VariableAmount(e.right, t.ann, env);
    SmallerShiftFits(LiteralValue(e.left.lit, s), Amount(e.right, t.ann, env), LargestRight(e.right), t.width, s);
    LiteralShiftExact(e, mode, s, env);
  }

  lemma PowerWidthMonotone(w: nat, n: nat, m: nat, s: bool)
    requires n <= m && w > 0
    ensures PowerWidth(w, n, s) <= PowerWidth(w, m, s)
  {
    ScaledBetween(w, n, m);
    ScaledBetween(w - 1, n, m);
  }

  /** A variable exponent: the width for its largest value holds every power. */
  lemma VariablePowerFits(e: Expr, mode: Mode, s: bool, env: Env)
    requires e.LeftWidth? && e.wop == Power && Exactable(e, s) && Promised(TestWidth(e, mode))
    requires VariableRight(e.right) && !TestWidth(e.right, SIZED).ann.S()
    requires PowerWidth(TestWidth(e.left, SIZED).width, LargestRight(e.right), s) <= INTEGER_WIDTH
    requires Exact(e.left, TestWidth(e.left, SIZED), s, env)
    requires OperandsDefined(e, TestWidth(e, mode).ann, env)
    ensures var t, lt := TestWidth(e, mode), TestWidth(e.left, SIZED);
      var n := Exponent(e.right, t.ann, env);
      && t.width >= lt.width && Fits(Pow(Value(e.left, lt.ann, s, env), n), t.width, s)
      && ToInt(Eval(RightSelf(e.right, t.ann), env), RightSelf(e.right, t.ann).signed) == n
  {
    hide Eval, Elaborate, EvalExpr, RightSelf, Pow, Fits, PowLen, ToInt, Exponent, Amount;
    var l, t, lt := e.left, TestWidth(e, mode), TestWidth(e.left, SIZED);
    var v, n, g := Value(l, lt.ann, s, env), Exponent(e.right, t.ann, env), LargestRight(e.right);
    VariableAmount(e.right, t.ann, env);
    SignStored(l, SIZED);
    ExactableSign(l, s);
    VariablePowerTested(e, mode, s);
    PowerWidthGrows(lt.width, g, s);
    BoundedPowerFits(v, n, g, lt.width, s);
  }

  lemma BoundedPowerFits(v: int, n: nat, g: nat, w: nat, s: bool)
    requires w > 0 && n <= g && 1 <= g && Fits(v, w, s)
    ensures Fits(Pow(v, n), PowerWidth(w, g, s), s)
  {
    hide Pow, Fits, PowerWidth;
    PowerWidthGrows(w, g, s);
    PowerWidthMonotone(w, n, g, s);
    if s || n >= 1 {
      PowerWidthIsBound(w, n, s);
      assert Fits(Pow(v, n), PowerWidth(w, n, s), s);
      FitsWider(Pow(v, n), PowerWidth(w, n, s), PowerWidth(w, g, s), s);
    } else {
      OneFits(v, PowerWidth(w, g, s));
    }
  }

  lemma OneFits(v: int, w: nat)
    requires w > 0
    ensures Fits(Pow(v, 0), w, false)
  {
  }

  /** The assumed largest value is not cut, since the width stays within an integer. */
  lemma VariablePowerTested(e: Expr, mode: Mode, s: bool)
    requires e.LeftWidth? && e.wop == Power && Promised(TestWidth(e, mode)) && TestWidth(e.left, SIZED).width > 0
    requires VariableRight(e.right) && !TestWidth(e.right, SIZED).ann.S() && TestWidth(e.left, SIZED).ann.S() == s
    requires PowerWidth(TestWidth(e.left, SIZED).width, LargestRight(e.right), s) <= INTEGER_WIDTH
    ensures LargestRight(e.right) >= 1
    ensures TestWidth(e, mode).width == PowerWidth(TestWidth(e.left, SIZED).width, LargestRight(e.right), s)
  {
    hide Elaborate, EvalExpr, RightValue;
    var lt, rt, rp := TestWidth(e.left, SIZED), TestWidth(e.right, SIZED), TestedRight(e.right);
    assert TestWidth(e, mode) == FinishLeftWidth(Power, e.left, mode, lt, rt, rp);
    hide TestWidth;
    SmallLargest(lt.width, rt.width, s, rp);
  }

  lemma SmallLargest(w: nat, rw: nat, s: bool, rp: NetExpr)
    requires w > 0 && 0 < rw < LONG_BITS && !rp.NConst? && PowerWidth(w, Pow2(rw) - 1, s) <= INTEGER_WIDTH
    ensures Pow2(rw) - 1 >= 1
    ensures PowerWidth(w, RightValue(Power, rw, false, rp), s) == PowerWidth(w, Pow2(rw) - 1, s)
  {
    hide Pow2, RightValue, PowerWidth;
    LargestGuess(rw, rp);
    var g := Pow2(rw) - 1;
    if w == 1 && s {
      OneBitPower(RightValue(Power, rw, false, rp));
      OneBitPower(g);
    } else {
      AtLeastExponent(w, g, s);
    }
  }

  lemma LargestGuess(rw: nat, rp: NetExpr)
    requires 0 < rw < LONG_BITS && !rp.NConst?
    ensures Pow2(rw) - 1 >= 1 && RightValue(Power, rw, false, rp) == Clip(Pow2(rw) - 1, 0, WIDTH_CAP)
  {
    assert Pow2(rw) == 2 * Pow2(rw - 1);
  }

  lemma OneBitPower(r: nat)
    ensures PowerWidth(1, r, true) == 2
  {
  }

  lemma AtLeastExponent(w: nat, g: nat, s: bool)
    requires w > 1 || (w == 1 && !s)
    ensures g <= PowerWidth(w, g, s)
  {
    ScaledBetween(g, 1, if s then w - 1 else w);
  }

  lemma PowerFits(e: Expr, mode: Mode, k: nat, s: bool, env: Env)
    requires e.LeftWidth? && e.wop == Power && Exactable(e, s) && Promised(TestWidth(e, mode))
    requires k >= 1 && ConstantRight(e.right, k) && SizedBaseFits(e.left, k, s)
    requires Exact(e.left, TestWidth(e.left, SIZED), s, env)
    requires OperandsDefined(e, TestWidth(e, mode).ann, env)
    ensures var t, lt := TestWidth(e, mode), TestWidth(e.left, SIZED);
      t.width >= lt.width && Fits(Pow(Value(e.left, lt.ann, s, env), k), t.width, s)
  {
    hide Eval, Elaborate, EvalExpr, RightSelf, RightValue, PowerWidth, Pow, Fits, PowLen, ToInt;
    var l, t, lt := e.left, TestWidth(e, mode), TestWidth(e.left, SIZED);
    var v, rp := Value(l, lt.ann, s, env), TestedRight(e.right);
    ConstantRightMeaning(Power, e.right, k, t.ann, env);
    if l.Number? && l.lit.hasLen {
      SizedPowLen(l.lit, rp.bits, rp.signed);
      assert t.width == |l.lit.bits| == lt.width;
    } else if l.Number? {
      LiteralPowerFits(l.lit, rp.bits, rp.signed, k, s);
      FitsWider(Pow(v, k), PowLen(l.lit, rp.bits, rp.signed), t.width, s);
    } else {
      SignStored(l, SIZED);
      ExactableSign(l, s);
      PowerWidthIsBound(lt.width, k, s);
      PowerWidthGrows(lt.width, k, s);
    }
  }

  lemma SizedPowLen(lit: Literal, e: Vec, eSigned: bool)
    requires lit.hasLen
    ensures PowLen(lit, e, eSigned) == |lit.bits|
  {
  }

  lemma LiteralPowerFits(lit: Literal, e: Vec, eSigned: bool, k: nat, s: bool)
    requires |lit.bits| > 0 && Defined(lit.bits) && lit.IsUnsized() && lit.hasSign == s
    requires Defined(e) && ToInt(e, eSigned) == k >= 1
    ensures Fits(Pow(LiteralValue(lit, s), k), PowLen(lit, e, eSigned), s)
  {
    if s {
      SignedLenFits(Pow(ToInt(lit.bits, true), k));
    } else {
      ToNatBound(lit.bits);
      UnsignedPowLenFits(ToNat(lit.bits), |lit.bits|, k);
    }
  }
}
