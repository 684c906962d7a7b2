/** The width test is coherent: the mode only rises, the stored sign does not depend on
    it, and testing again from the mode a test ended in changes nothing. */
module Coherence {
  import opened Logic4
  import opened VecOps
  import opened NetExprs
  import opened WidthTest

  /** The declared sign of an expression, by the operands alone. */
  function SignOf(e: Expr): bool
  {
    match e
    case Number(lit) => lit.hasSign
    case Operand(_, _, s, _) => s
    case Binary(_, l, r) => SignOf(l) && SignOf(r)
    case Compare(_, _, _) => false
    case LeftWidth(_, l, _) => SignOf(l)
    case Ternary(_, l, r) => SignOf(l) && SignOf(r)
    case Unary(_, a) => SignOf(a)
    case Reduction(_, _) => false
  }

  lemma {:induction false} SignStored(e: Expr, mode: Mode)
    ensures TestWidth(e, mode).ann.Ann? && TestWidth(e, mode).ann.S() == SignOf(e)
    decreases e, 1
  {
    hide Elaborate;
    match e {
      case Binary(_, l, r) => PairSigns(e, r, l, mode);
      case Ternary(_, l, r) => PairSigns(e, l, r, mode);
      case LeftWidth(_, l, _) => SignStored(l, SIZED);
      case Unary(_, a) => SignStored(a, mode);
      case _ =>
    }
  }

  lemma PairSigns(parent: Expr, x: Expr, y: Expr, mode: Mode)
    requires x < parent && y < parent
    ensures TestPair(parent, x, y, mode).first.ann.S() == SignOf(x)
    ensures TestPair(parent, x, y, mode).second.ann.S() == SignOf(y)
    decreases parent, 0
  {
    hide TestWidth;
    var x0 := TestWidth(x, mode);
    SignStored(x, mode);
    SignStored(y, x0.mode);
    SignStored(x, TestWidth(y, x0.mode).mode);
  }

  /** The mode never falls, and EXPAND is never entered from below. */
  predicate Rises(from: Mode, to: Mode) { to.AtLeast(from) && (to == EXPAND ==> from == EXPAND) }

  lemma {:induction false} ModeRises(e: Expr, mode: Mode)
    ensures Rises(mode, TestWidth(e, mode).mode)
    decreases e, 1
  {
    hide Elaborate;
    match e {
      case Binary(_, l, r) => PairRises(e, r, l, mode);
      case Ternary(_, l, r) => PairRises(e, l, r, mode);
      case LeftWidth(_, l, _) => ModeRises(l, SIZED);
      case Unary(_, a) => ModeRises(a, mode);
      case _ =>
    }
  }

  lemma PairRises(parent: Expr, x: Expr, y: Expr, mode: Mode)
    requires x < parent && y < parent
    ensures Rises(mode, TestPair(parent, x, y, mode).mode)
    decreases parent, 0
  {
    hide TestWidth;
    var x0 := TestWidth(x, mode);
    ModeRises(x, mode);
    ModeRises(y, x0.mode);
    ModeRises(x, TestWidth(y, x0.mode).mode);
  }

  /** Two tests that agree on everything a parent reads. */
  predicate Same(a: Test, b: Test) { a.width == b.width && a.ann.W() == b.ann.W() && a.mode == b.mode }

  /** UPSIZE computes the same width as LOSSLESS and stays; UNSIZED the same as an undisturbed SIZED. */
  lemma {:induction false} NeighbourModes(e: Expr)
    ensures TestWidth(e, LOSSLESS).width == TestWidth(e, UPSIZE).width
    ensures TestWidth(e, UPSIZE).mode == UPSIZE
    ensures TestWidth(e, SIZED).mode == SIZED ==>
              TestWidth(e, UNSIZED).width == TestWidth(e, SIZED).width && TestWidth(e, UNSIZED).mode == UNSIZED
    decreases e, 1
  {
    hide Elaborate, EvalExpr, LosslessWidth, RightValue;
    ModeRises(e, UPSIZE);
    match e {
      case Binary(_, l, r) =>
        PairNeighbours(e, r, l);
        PairRises(e, r, l, LOSSLESS);
        PairRises(e, r, l, UPSIZE);
      case Ternary(_, l, r) =>
        PairNeighbours(e, l, r);
        PairRises(e, l, r, UPSIZE);
      case Unary(_, a) => NeighbourModes(a);
      case _ =>
    }
  }

  lemma PairNeighbours(parent: Expr, x: Expr, y: Expr)
    requires x < parent && y < parent
    ensures var a, b := TestPair(parent, x, y, LOSSLESS), TestPair(parent, x, y, UPSIZE);
      a.first.width == b.first.width && a.second.width == b.second.width
    ensures TestPair(parent, x, y, SIZED).mode == SIZED ==>
      var a, b := TestPair(parent, x, y, SIZED), TestPair(parent, x, y, UNSIZED);
      a.first.width == b.first.width && a.second.width == b.second.width && b.mode == UNSIZED
    decreases parent, 0
  {
    hide TestWidth;
    NeighbourModes(x);
    NeighbourModes(y);
    ModeRises(x, LOSSLESS);
    ModeRises(x, SIZED);
    ModeRises(y, TestWidth(x, SIZED).mode);
    ModeRises(y, TestWidth(x, LOSSLESS).mode);
    ModeRises(x, TestWidth(y, TestWidth(x, SIZED).mode).mode);
  }

  /** The mode a node ends in: the operands' mode, or UPSIZE from LOSSLESS. */
  predicate EndsIn(operands: Mode, end: Mode) { end == operands || (operands == LOSSLESS && end == UPSIZE) }

  /** Main result: testing again from the final mode returns the same width, stored width and mode. */
  lemma {:induction false} RetestIsStable(e: Expr, mode: Mode)
    ensures Same(TestWidth(e, TestWidth(e, mode).mode), TestWidth(e, mode))
    decreases e, 1
  {
    hide Elaborate, EvalExpr, LosslessWidth, RightValue;
    var t := TestWidth(e, mode);
    match e {
      case Binary(op, l, r) =>
        PairSigns(e, r, l, mode);
        PairSigns(e, r, l, t.mode);
        PairStable(e, r, l, mode, t.mode);
      case Ternary(_, l, r) =>
        PairSigns(e, l, r, mode);
        PairSigns(e, l, r, t.mode);
        PairStable(e, l, r, mode, t.mode);
      case Unary(_, a) => RetestIsStable(a, mode);
      case _ =>
    }
  }

  /** One conditional retest of the first operand is enough. */
  lemma PairStable(parent: Expr, x: Expr, y: Expr, mode: Mode, end: Mode)
    requires x < parent && y < parent && EndsIn(TestPair(parent, x, y, mode).mode, end)
    ensures var a, b := TestPair(parent, x, y, mode), TestPair(parent, x, y, end);
      b.first.width == a.first.width && b.second.width == a.second.width && b.mode == end
    decreases parent, 0
  {
    hide TestWidth;
    var x0 := TestWidth(x, mode);
    var y0 := TestWidth(y, x0.mode);
    RetestIsStable(x, mode);
    RetestIsStable(y, x0.mode);
    RetestIsStable(x, y0.mode);
    NeighbourModes(x);
    NeighbourModes(y);
    ModeRises(x, mode);
    ModeRises(y, x0.mode);
    ModeRises(x, y0.mode);
    ModeRises(x, end);
    ModeRises(y, end);
  }
}
