/** Parsed expressions and the two elaboration passes over them: the bottom-up
    width test, and the top-down construction of the elaborated tree. */
module WidthTest {
  import opened Logic4
  import opened VecOps
  import opened NetExprs

  // Compiler settings, at their defaults.
  const INTEGER_WIDTH: nat := 32
  const WIDTH_CAP: nat := 65536

  const UINT_MAX: nat := 0xFFFF_FFFF
  const LONG_BITS: nat := 64

  /** Width modes, from strictly standard to most generous. */
  datatype Mode = SIZED | UNSIZED | EXPAND | LOSSLESS | UPSIZE
  {
    function Rank(): nat
    {
      match this case SIZED => 0 case UNSIZED => 1 case EXPAND => 2 case LOSSLESS => 3 case UPSIZE => 4
    }

    predicate AtLeast(m: Mode) { Rank() >= m.Rank() }
  }

  /** A literal number as written: its digits, whether it has a size, a sign, or is a '0/'1 fill. */
  datatype Literal = Literal(bits: Vec, hasLen: bool, hasSign: bool, isSingle: bool)
  {
    predicate IsUnsized() { !hasLen && !isSingle }
  }

  datatype WideOp = Shift(op: ShiftOp) | Power

  /** `Operand` stands for every operand of fixed width: a net, a select, a concatenation, a call. */
  datatype Expr =
    | Number(lit: Literal)
    | Operand(id: nat, width: nat, signed: bool, twoState: bool)
    | Binary(bop: BinOp, left: Expr, right: Expr)
    | Compare(cop: CmpOp, left: Expr, right: Expr)
    | LeftWidth(wop: WideOp, left: Expr, right: Expr)
    | Ternary(cond: Expr, left: Expr, right: Expr)
    | Unary(uop: UnOp, left: Expr)
    | Reduction(rop: RedOp, left: Expr)

  /** What the width test stores in a node: the fields, and the same for the operands it tested. */
  datatype Ann =
    | NotTested
    | Ann(width: nat, minWidth: nat, signed: bool, lWidth: nat, rWidth: nat, l: Ann, r: Ann)
  {
    function W(): nat { if Ann? then width else 0 }
    predicate S() { Ann? && signed }
    function LW(): nat { if Ann? then lWidth else 0 }
    function RW(): nat { if Ann? then rWidth else 0 }
    function L(): Ann { if Ann? then l else NotTested }
    function R(): Ann { if Ann? then r else NotTested }
  }

  /** Result of the width test: the returned width, the mode handed back, the stored fields. */
  datatype Test = Test(width: nat, mode: Mode, ann: Ann)

  /** The stored width is raised to the integer width in UPSIZE mode; the returned one is not. */
  function FixWidth(mode: Mode, w: nat): nat
  {
    if mode == UPSIZE && w < INTEGER_WIDTH then INTEGER_WIDTH else w
  }

  function Finish(w: nat, mode: Mode, minWidth: nat, signed: bool, l: Ann, r: Ann): Test
  {
    Test(w, mode, Ann(FixWidth(mode, w), minWidth, signed, 0, 0, l, r))
  }

  // ----- the bottom-up pass -----

  function TestNumber(lit: Literal, mode: Mode): Test
  {
    var n := |lit.bits|;
    var unsized := lit.IsUnsized() && !mode.AtLeast(LOSSLESS);
    var w := if unsized && n < INTEGER_WIDTH then INTEGER_WIDTH else n;
    var m :=
      if !unsized then mode
      else if n < INTEGER_WIDTH then (if mode == SIZED then UNSIZED else mode)
      else LOSSLESS;
    Test(w, m, Ann(w, n, lit.hasSign, 0, 0, NotTested, NotTested))
  }

  /** Both operands tested in turn; the first again when the second made the mode lossless. */
  datatype PairTest = PairTest(first: Test, second: Test, mode: Mode)

  function TestPair(ghost parent: Expr, x: Expr, y: Expr, mode: Mode): PairTest
    requires x < parent && y < parent
    decreases parent, 0
  {
    var x0 := TestWidth(x, mode);
    var y0 := TestWidth(y, x0.mode);
    if y0.mode.AtLeast(LOSSLESS) && !x0.mode.AtLeast(LOSSLESS) then
      var x1 := TestWidth(x, y0.mode);
      PairTest(x1, y0, x1.mode)
    else
      PairTest(x0, y0, y0.mode)
  }

  function TestWidth(e: Expr, mode: Mode): Test
    decreases e, 1
  {
    match e
    case Number(lit) => TestNumber(lit, mode)
    case Operand(_, w, s, _) => Test(w, mode, Ann(w, w, s, 0, 0, NotTested, NotTested))
    case Binary(op, l, r) => FinishBinary(op, TestPair(e, r, l, mode))
    case Compare(_, l, r) => Test(1, mode, FinishCompare(TestPair(e, r, l, SIZED)))
    case LeftWidth(op, l, r) =>
      var rt := TestWidth(r, SIZED);
      var rp := EvalExpr(Elaborate(r, rt.ann, rt.ann.S(), rt.width));
      FinishLeftWidth(op, l, mode, TestWidth(l, SIZED), rt, rp)
    case Ternary(_, l, r) => FinishTernary(TestPair(e, l, r, mode))
    case Unary(_, a) =>
      var t := TestWidth(a, mode);
      Finish(t.width, t.mode, if t.ann.Ann? then t.ann.minWidth else 0, t.ann.S(), t.ann, NotTested)
    case Reduction(_, a) =>
      Test(1, mode, Ann(1, 1, false, 0, 0, TestWidth(a, SIZED).ann, NotTested))
  }

  function MinWidth(a: Ann): nat { if a.Ann? then a.minWidth else 0 }

  /** Mixing signed and unsigned operands makes the lossless width unreliable. */
  function MixedSigns(mode: Mode, l: Ann, r: Ann): Mode
  {
    if mode == LOSSLESS && l.S() != r.S() then UPSIZE else mode
  }

  function FinishBinary(op: BinOp, p: PairTest): Test
  {
    var r, l := p.first, p.second;
    var mode := MixedSigns(p.mode, l.ann, r.ann);
    var w :=
      match op
      case Add => Max(l.width, r.width) + (if mode.AtLeast(EXPAND) then 1 else 0)
      case Sub => Max(l.width, r.width) + (if mode.AtLeast(EXPAND) then 1 else 0)
      case Mul => if mode.AtLeast(EXPAND) then l.width + r.width else Max(l.width, r.width)
      case _ => Max(l.width, r.width);
    var minW := if op.Div? || op.Mod? then UINT_MAX else Max(MinWidth(l.ann), MinWidth(r.ann));
    Finish(w, mode, minW, l.ann.S() && r.ann.S(), l.ann, r.ann)
  }

  function FinishTernary(p: PairTest): Test
  {
    var t, f := p.first, p.second;
    var mode := MixedSigns(p.mode, t.ann, f.ann);
    Finish(Max(t.width, f.width), mode, Max(MinWidth(t.ann), MinWidth(f.ann)),
           t.ann.S() && f.ann.S(), t.ann, f.ann)
  }

  /** Operands of a comparison are widened together, by one more bit when they are lossless. */
  function FinishCompare(p: PairTest): Ann
  {
    var r, l := p.first, p.second;
    var w := Max(l.width, r.width);
    var u := if p.mode.AtLeast(EXPAND) && w < INTEGER_WIDTH then w + 1 else w;
    Ann(1, 1, false, u, u, l.ann, r.ann)
  }

  function Clip(n: int, lo: nat, hi: nat): nat
    requires lo <= hi
  { if n < lo then lo else if n > hi then hi else n }

  function AsLong(v: Vec, signed: bool): int { if Defined(v) then ToInt(v, signed) else 0 }

  /** The best guess at the value of the right operand. */
  function RightValue(op: WideOp, rWidth: nat, rSigned: bool, rp: NetExpr): nat
  {
    var largest :=
      if rWidth >= LONG_BITS then Pow2(LONG_BITS - 1) - 1
      else if op.Power? && rSigned then (Pow2(rWidth) - 1) / 2
      else Pow2(rWidth) - 1;
    var cWidth := if rSigned then LONG_BITS else LONG_BITS - 1;
    Clip(if rp.NConst? && rWidth <= cWidth then AsLong(rp.bits, rp.signed) else largest, 0, WIDTH_CAP)
  }

  /** Lossless width of a power whose base has `w` bits. */
  function PowerWidth(w: nat, r: nat, signed: bool): nat
  {
    if signed then (if w == 0 then 0 else w - 1) * r + 2 else w * r
  }

  function LosslessWidth(op: WideOp, l: Expr, lt: Test, rp: NetExpr, rv: nat): nat
  {
    match op
    case Shift(Shl) => if lt.mode != SIZED then lt.width + rv else lt.width
    case Shift(_) => lt.width
    case Power =>
      if l.Number? && rp.NConst? then Max(lt.width, PowLen(l.lit, rp.bits, rp.signed))
      else PowerWidth(lt.width, rv, lt.ann.S())
  }

  function FinishLeftWidth(op: WideOp, l: Expr, mode0: Mode, lt: Test, rt: Test, rp: NetExpr): Test
  {
    var mode1 := if mode0 == SIZED then lt.mode else mode0;
    var minW := if op == Shift(Shl) then MinWidth(lt.ann) else UINT_MAX;
    if mode1.AtLeast(EXPAND) then
      var rv := RightValue(op, rt.width, rt.ann.S(), rp);
      var use := LosslessWidth(op, l, lt, rp, rv);
      var w := if !rp.NConst? && use > lt.width && use > INTEGER_WIDTH then INTEGER_WIDTH else use;
      var mode := if (op == Shift(Shr) || op == Shift(Sar)) && mode1 == LOSSLESS && lt.ann.S()
                  then UPSIZE else mode1;
      Finish(w, mode, minW, lt.ann.S(), lt.ann, rt.ann)
    else
      Finish(lt.width, mode1, minW, lt.ann.S(), lt.ann, rt.ann)
  }

  // ----- the length of a constant power -----

  function SigBits(n: nat): nat
  { if n == 0 then 0 else 1 + SigBits(n / 2) }

  /** Length of an unsized unsigned product: the full length, or trimmed to one leading zero. */
  function ProductLen(a: nat, aLen: nat, b: nat, bLen: nat): nat
  {
    if aLen + bLen > 0 && a * b >= Pow2(aLen + bLen - 1) then aLen + bLen else SigBits(a * b) + 1
  }

  /** Length of the unsized unsigned power computed by repeated squaring. */
  function UnsignedPowLen(b: nat, bLen: nat, e: nat): nat
    decreases e
  {
    if e == 0 then 2
    else if e % 2 == 1 then ProductLen(b, bLen, NatPow(b, e - 1), UnsignedPowLen(b, bLen, e - 1))
    else ProductLen(NatPow(b, e / 2), UnsignedPowLen(b, bLen, e / 2),
                    NatPow(b, e / 2), UnsignedPowLen(b, bLen, e / 2))
  }

  function NatPow(b: nat, e: nat): (r: nat)
    ensures r == Pow(b, e)
  { if e == 0 then 1 else b * NatPow(b, e - 1) }

  /** The shortest signed representation. */
  function SignedLen(n: int): nat { SigBits(if n < 0 then -n - 1 else n) + 1 }

  /** Length of a literal raised to a constant: a sized literal keeps its size. */
  function PowLen(lit: Literal, e: Vec, eSigned: bool): nat
  {
    var n := AsLong(e, eSigned);
    if lit.hasLen || !Defined(lit.bits) || n <= 0 then |lit.bits|
    else if lit.hasSign then SignedLen(Pow(ToInt(lit.bits, true), n))
    else UnsignedPowLen(ToNat(lit.bits), |lit.bits|, n)
  }

  // ----- the top-down pass -----

  /** A literal extended or truncated to the context width. */
  function CastNumber(lit: Literal, w: nat, s: bool): (r: Vec)
    ensures |r| == w
  {
    var sg := if lit.hasLen then s else lit.hasSign;
    var n := |lit.bits|;
    if w <= n then lit.bits[..w]
    else if n == 0 then Fill(V0, w)
    else
      var top := lit.bits[n - 1];
      var p1 := if top == V1 && !sg && !lit.isSingle then V0 else top;
      var pad := if lit.hasLen && !sg && !lit.isSingle && !IsDefinedBit(p1) then V0 else p1;
      lit.bits + Fill(pad, w - n)
  }

  /** Build the tree of `e` at width `w` and sign `s`, with the fields `a` of the last width test. */
  function Elaborate(e: Expr, a: Ann, s: bool, w: nat): NetExpr
    decreases e, 1
  {
    match e
    case Number(lit) => NConst(CastNumber(lit, w, s), s)
    case Operand(id, wid, sg, two) => PadToWidth(NSignal(id, wid, sg, two), w, s)
    case Binary(op, l, r) =>
      var lp := Elaborate(l, a.L(), s, w);
      var rp := Elaborate(r, a.R(), s, w);
      if op.Mul? then MakeMult(lp, rp, w, s) else NBinary(op, lp, rp, w, s)
    case Compare(op, l, r) =>
      var both := a.L().S() && a.R().S();
      var lp := EvalExpr(Elaborate(l, a.L(), both, a.LW()));
      var rp := EvalExpr(Elaborate(r, a.R(), both, a.RW()));
      PadToWidth(NCompare(op, lp, rp, false), w, s)
    case LeftWidth(op, l, r) =>
      var lp := EvalExpr(Elaborate(l, a.L(), s, w));
      var rp := Elaborate(r, a.R(), a.R().S(), a.R().W());
      if op.Power? then NPower(lp, EvalExpr(rp), w, s)
      else MakeShift(op.op, lp, EvalExpr(AsUnsigned(rp)), w, s)
    case Ternary(c, l, r) =>
      var con := ConditionReduce(ElaborateSelf(c));
      var tru := EvalExpr(Elaborate(l, a.L(), s, w));
      var fal := EvalExpr(Elaborate(r, a.R(), s, w));
      MakeTernary(con, tru, fal, w, s)
    case Unary(op, x) => MakeUnary(op, Elaborate(x, a.L(), s, w), w, s)
    case Reduction(op, x) =>
      PadToWidth(MakeReduce(op, Elaborate(x, a.L(), a.L().S(), a.L().W())), w, s)
  }

  /** The amount of a shift is read as unsigned. */
  function AsUnsigned(n: NetExpr): NetExpr { if n.signed then NPad(n, n.Width(), false) else n }

  /** The width at which an expression without context is elaborated. */
  function SelfWidth(t: Test): nat
  {
    if t.mode.AtLeast(LOSSLESS) && t.ann.W() > WIDTH_CAP then WIDTH_CAP else t.ann.W()
  }

  /** Test and elaborate an expression that has no context. */
  function ElaborateSelf(e: Expr): NetExpr
    decreases e, 2
  {
    var t := TestWidth(e, SIZED);
    EvalExpr(Elaborate(e, t.ann, t.ann.S(), SelfWidth(t)))
  }

  lemma UnfoldTernary(c: Expr, l: Expr, r: Expr, a: Ann, s: bool, w: nat)
    ensures Elaborate(Ternary(c, l, r), a, s, w)
         == MakeTernary(ConditionReduce(ElaborateSelf(c)),
                        EvalExpr(Elaborate(l, a.L(), s, w)), EvalExpr(Elaborate(r, a.R(), s, w)), w, s)
  {
  }
}
