/** The parsed expression objects: a tree of nodes whose width test and elaboration store
    their results in the nodes. The two methods are proved to compute `TestWidth` and `Elaborate`. */
module ParsedExpr {
  import opened Logic4
  import opened VecOps
  import opened NetExprs
  import W = WidthTest

  datatype Kind =
    | KNumber(lit: W.Literal)
    | KOperand(id: nat, width: nat, signed: bool, twoState: bool)
    | KBinary(bop: BinOp)
    | KCompare(cop: CmpOp)
    | KLeftWidth(wop: W.WideOp)
    | KTernary
    | KUnary(uop: UnOp)
    | KReduction(rop: RedOp)

  // One step of each pass, so that the methods need not unfold the recursion.

  lemma UnfoldCompare(op: CmpOp, l: W.Expr, r: W.Expr, mode: W.Mode)
    ensures W.TestWidth(W.Compare(op, l, r), mode)
         == W.Test(1, mode, W.FinishCompare(W.TestPair(W.Compare(op, l, r), r, l, W.SIZED)))
  {
  }

  lemma UnfoldLeftWidth(op: W.WideOp, l: W.Expr, r: W.Expr, mode: W.Mode)
    ensures var rt := W.TestWidth(r, W.SIZED);
      W.TestWidth(W.LeftWidth(op, l, r), mode)
         == W.FinishLeftWidth(op, l, mode, W.TestWidth(l, W.SIZED), rt,
                              EvalExpr(W.Elaborate(r, rt.ann, rt.ann.S(), rt.width)))
  {
  }

  class PExpr {
    const kind: Kind
    const expr: PExpr?  // the condition of a conditional
    const left: PExpr?
    const right: PExpr?

    var exprWidth: nat
    var minWidth: nat
    var signedFlag: bool
    var lWidth: nat
    var rWidth: nat

    ghost const shape: W.Expr
    ghost const repr: set<PExpr>

    predicate IsPair() { kind.KBinary? || kind.KCompare? || kind.KLeftWidth? || kind.KTernary? }

    /** The node and its operands form a tree of the shape `shape`; nothing here ever changes. */
    ghost predicate Valid()
      decreases shape
    {
      && this in repr
      && (!kind.KNumber? && !kind.KOperand? ==>
            && left != null && left in repr && left.repr <= repr && this !in left.repr
            && left.shape < shape && left.Valid())
      && (IsPair() ==>
            && right != null && right in repr && right.repr <= repr && this !in right.repr
            && right.shape < shape && right.Valid() && left.repr !! right.repr)
      && (kind.KTernary? ==>
            && expr != null && expr in repr && expr.repr <= repr && this !in expr.repr
            && expr.shape < shape && expr.Valid() && expr.repr !! left.repr && expr.repr !! right.repr)
      && match kind
         case KNumber(lit) => shape == W.Number(lit)
         case KOperand(id, w, s, two) => shape == W.Operand(id, w, s, two)
         case KBinary(op) => shape == W.Binary(op, left.shape, right.shape)
         case KCompare(op) => shape == W.Compare(op, left.shape, right.shape)
         case KLeftWidth(op) => shape == W.LeftWidth(op, left.shape, right.shape)
         case KTernary => shape == W.Ternary(expr.shape, left.shape, right.shape)
         case KUnary(op) => shape == W.Unary(op, left.shape)
         case KReduction(op) => shape == W.Reduction(op, left.shape)
    }

    /** The stored fields are those of the annotation `a`. The sign flag of an operand that takes
        its sign from its parent is left open: the parent overwrites it before using it. */
    ghost predicate Holds(a: W.Ann, own: bool)
      requires Valid()
      reads repr
      decreases shape
    {
      && a.Ann? && exprWidth == a.width && minWidth == a.minWidth && (own ==> signedFlag == a.signed)
      && (!kind.KNumber? && !kind.KOperand? ==> left.Holds(a.l, kind.KReduction?))
      && (IsPair() ==> right.Holds(a.r, kind.KLeftWidth?))
      && (kind.KCompare? ==>
            && lWidth == a.lWidth && rWidth == a.rWidth
            && ((left.signedFlag && right.signedFlag) == (a.l.S() && a.r.S())))
    }

    constructor Leaf(k: Kind)
      requires k.KNumber? || k.KOperand?
      ensures Valid() && kind == k && fresh(repr)
    {
      kind, expr, left, right := k, null, null, null;
      shape := if k.KNumber? then W.Number(k.lit) else W.Operand(k.id, k.width, k.signed, k.twoState);
      repr := {this};
    }

    constructor Node(k: Kind, l: PExpr, r: PExpr)
      requires k.KBinary? || k.KCompare? || k.KLeftWidth?
      requires l.Valid() && r.Valid() && l.repr !! r.repr
      ensures Valid() && kind == k && left == l && right == r && fresh(repr - l.repr - r.repr)
    {
      kind, expr, left, right := k, null, l, r;
      shape :=
        if k.KBinary? then W.Binary(k.bop, l.shape, r.shape)
        else if k.KCompare? then W.Compare(k.cop, l.shape, r.shape)
        else W.LeftWidth(k.wop, l.shape, r.shape);
      repr := {this} + l.repr + r.repr;
    }

    constructor Conditional(c: PExpr, l: PExpr, r: PExpr)
      requires c.Valid() && l.Valid() && r.Valid()
      requires l.repr !! r.repr && c.repr !! l.repr && c.repr !! r.repr
      ensures Valid() && kind == KTernary && expr == c && left == l && right == r
      ensures fresh(repr - c.repr - l.repr - r.repr)
    {
      kind, expr, left, right := KTernary, c, l, r;
      shape := W.Ternary(c.shape, l.shape, r.shape);
      repr := {this} + c.repr + l.repr + r.repr;
    }

    constructor Single(k: Kind, l: PExpr)
      requires (k.KUnary? || k.KReduction?) && l.Valid()
      ensures Valid() && kind == k && left == l && fresh(repr - l.repr)
    {
      kind, expr, left, right := k, null, l, null;
      shape := if k.KUnary? then W.Unary(k.uop, l.shape) else W.Reduction(k.rop, l.shape);
      repr := {this} + l.repr;
    }

    /** Overwrite the sign flag; the rest of the stored fields stay. */
    method CastSigned(flag: bool, ghost a: W.Ann)
      requires Valid() && Holds(a, false)
      modifies this`signedFlag
      ensures signedFlag == flag && Holds(a, false)
    {
      signedFlag := flag;
    }

    /** The stored width is raised in UPSIZE mode; the width handed back is the one before. */
    method FixWidth(mode: W.Mode) returns (width: nat)
      modifies this`exprWidth
      ensures width == old(exprWidth) && exprWidth == W.FixWidth(mode, width)
    {
      width := exprWidth;
      if mode == W.UPSIZE && width < W.INTEGER_WIDTH { exprWidth := W.INTEGER_WIDTH; }
    }

    /** Store the fields of a node whose operands have been tested. */
    method Store(w: nat, mode: W.Mode, m: nat, s: bool, ghost l: W.Ann, ghost r: W.Ann) returns (width: nat)
      requires Valid() && !kind.KNumber? && !kind.KOperand? && !kind.KCompare? && left.Holds(l, true)
      requires IsPair() ==> right.Holds(r, kind.KLeftWidth?)
      modifies this
      ensures width == w && Holds(W.Finish(w, mode, m, s, l, r).ann, true)
    {
      left.HoldsAny(l);
      exprWidth, minWidth, signedFlag := w, m, s;
      width := FixWidth(mode);
    }

    // ----- the width test -----

    method TestWidth(mode0: W.Mode) returns (width: nat, mode: W.Mode)
      requires Valid()
      modifies repr
      ensures width == W.TestWidth(shape, mode0).width && mode == W.TestWidth(shape, mode0).mode
      ensures Holds(W.TestWidth(shape, mode0).ann, true)
      decreases shape, 2
    {
      match kind {
        case KNumber(lit) => width, mode := TestNumber(mode0);
        case KOperand(_, w, s, _) =>
          exprWidth, minWidth, signedFlag := w, w, s;
          width, mode := w, mode0;
        case KBinary(_) => width, mode := TestBinary(mode0);
        case KCompare(_) => width, mode := TestCompare(mode0);
        case KLeftWidth(_) => width, mode := TestLeftWidth(mode0);
        case KTernary => width, mode := TestTernary(mode0);
        case KUnary(_) => width, mode := TestUnary(mode0);
        case KReduction(_) =>
          var subWidth, subMode := left.TestWidth(W.SIZED);
          exprWidth, minWidth, signedFlag := 1, 1, false;
          width, mode := 1, mode0;
      }
    }

    method TestNumber(mode0: W.Mode) returns (width: nat, mode: W.Mode)
      requires Valid() && kind.KNumber?
      modifies repr
      ensures width == W.TestWidth(shape, mode0).width && mode == W.TestWidth(shape, mode0).mode
      ensures Holds(W.TestWidth(shape, mode0).ann, true)
    {
      var value := kind.lit;
      mode := mode0;
      exprWidth := |value.bits|;
      minWidth := exprWidth;
      signedFlag := value.hasSign;
      if !value.hasLen && !value.isSingle {
        if !mode.AtLeast(W.LOSSLESS) {
          if exprWidth < W.INTEGER_WIDTH {
            exprWidth := W.INTEGER_WIDTH;
            if !mode.AtLeast(W.UNSIZED) { mode := W.UNSIZED; }
          } else {
            mode := W.LOSSLESS;
          }
        }
      }
      width := exprWidth;
    }

    /** Test both operands, and the first again if the second made the mode lossless. */
    method TestOperands(first: PExpr, second: PExpr, mode0: W.Mode) returns (fw: nat, sw: nat, mode: W.Mode)
      requires first.Valid() && second.Valid() && first.repr !! second.repr
      requires first.shape < shape && second.shape < shape
      modifies first.repr, second.repr
      ensures var p := W.TestPair(shape, first.shape, second.shape, mode0);
        && fw == p.first.width && sw == p.second.width && mode == p.mode
        && first.Holds(p.first.ann, true) && second.Holds(p.second.ann, true)
      decreases shape, 0
    {
      hide W.TestWidth;
      fw, mode := first.TestWidth(mode0);
      var saved := mode;
      sw, mode := second.TestWidth(mode);
      if mode.AtLeast(W.LOSSLESS) && !saved.AtLeast(W.LOSSLESS) {
        fw, mode := first.TestWidth(mode);
      }
    }

    lemma HoldsAny(a: W.Ann)
      requires Valid() && Holds(a, true)
      ensures Holds(a, false) && signedFlag == a.S() && minWidth == W.MinWidth(a) && exprWidth == a.W()
    {
    }

    method TestBinary(mode0: W.Mode) returns (width: nat, mode: W.Mode)
      requires Valid() && kind.KBinary?
      modifies repr
      ensures width == W.TestWidth(shape, mode0).width && mode == W.TestWidth(shape, mode0).mode
      ensures Holds(W.TestWidth(shape, mode0).ann, true)
      decreases shape, 1
    {
      hide W.TestPair;
      ghost var p := W.TestPair(shape, right.shape, left.shape, mode0);
      assert W.TestWidth(shape, mode0) == W.FinishBinary(kind.bop, p);
      hide W.TestWidth;
      var rw, lw;
      rw, lw, mode := TestOperands(right, left, mode0);
      left.HoldsAny(p.second.ann);
      right.HoldsAny(p.first.ann);
      var w, m := Max(lw, rw), Max(left.minWidth, right.minWidth);
      if mode == W.LOSSLESS && left.signedFlag != right.signedFlag { mode := W.UPSIZE; }
      match kind.bop {
        case Add => if mode.AtLeast(W.EXPAND) { w := w + 1; }
        case Sub => if mode.AtLeast(W.EXPAND) { w := w + 1; }
        case Mul => if mode.AtLeast(W.EXPAND) { w := lw + rw; }
        case Div => m := W.UINT_MAX;
        case Mod => m := W.UINT_MAX;
        case _ =>
      }
      ghost var s := left.signedFlag && right.signedFlag;
      assert W.FinishBinary(kind.bop, p) == W.Finish(w, mode, m, s, p.second.ann, p.first.ann);
      hide W.FinishBinary;
      width := Store(w, mode, m, left.signedFlag && right.signedFlag, p.second.ann, p.first.ann);
    }

    method TestTernary(mode0: W.Mode) returns (width: nat, mode: W.Mode)
      requires Valid() && kind.KTernary?
      modifies repr
      ensures width == W.TestWidth(shape, mode0).width && mode == W.TestWidth(shape, mode0).mode
      ensures Holds(W.TestWidth(shape, mode0).ann, true)
      decreases shape, 1
    {
      hide W.TestPair;
      ghost var p := W.TestPair(shape, left.shape, right.shape, mode0);
      assert W.TestWidth(shape, mode0) == W.FinishTernary(p);
      hide W.TestWidth;
      var tw, fw;
      tw, fw, mode := TestOperands(left, right, mode0);
      left.HoldsAny(p.first.ann);
      right.HoldsAny(p.second.ann);
      if mode == W.LOSSLESS && left.signedFlag != right.signedFlag { mode := W.UPSIZE; }
      width := Store(Max(tw, fw), mode, Max(left.minWidth, right.minWidth),
                     left.signedFlag && right.signedFlag, p.first.ann, p.second.ann);
    }

    method TestCompare(mode0: W.Mode) returns (width: nat, mode: W.Mode)
      requires Valid() && kind.KCompare?
      modifies repr
      ensures width == W.TestWidth(shape, mode0).width && mode == W.TestWidth(shape, mode0).mode
      ensures Holds(W.TestWidth(shape, mode0).ann, true)
      decreases shape, 1
    {
      hide W.TestPair, W.TestWidth, W.FinishCompare;
      ghost var p := W.TestPair(shape, right.shape, left.shape, W.SIZED);
      UnfoldCompare(kind.cop, left.shape, right.shape, mode0);
      var rw, lw, m := TestOperands(right, left, W.SIZED);
      var l, r := AdjustWidths(lw, rw, m);
      left.HoldsAny(p.second.ann);
      right.HoldsAny(p.first.ann);
      StoreCompare(l, r, p.second.ann, p.first.ann);
      width, mode := 1, mode0;
    }

    /** The operands are widened to each other, and by one bit when they are lossless. */
    static method AdjustWidths(lw: nat, rw: nat, m: W.Mode) returns (l: nat, r: nat)
      ensures forall p: W.PairTest :: p.second.width == lw && p.first.width == rw && p.mode == m ==>
        W.FinishCompare(p) == W.Ann(1, 1, false, l, r, p.second.ann, p.first.ann)
    {
      l, r := lw, rw;
      if rw > lw { l := rw; }
      if lw > rw { r := lw; }
      if m.AtLeast(W.EXPAND) {
        if l < W.INTEGER_WIDTH { l := l + 1; }
        if r < W.INTEGER_WIDTH { r := r + 1; }
      }
    }

    method StoreCompare(l: nat, r: nat, ghost a: W.Ann, ghost b: W.Ann)
      requires Valid() && kind.KCompare? && left.Holds(a, false) && right.Holds(b, false)
      requires left.signedFlag == a.S() && right.signedFlag == b.S()
      modifies this
      ensures Holds(W.Ann(1, 1, false, l, r, a, b), true)
    {
      exprWidth, minWidth, signedFlag, lWidth, rWidth := 1, 1, false, l, r;
    }

    method TestUnary(mode0: W.Mode) returns (width: nat, mode: W.Mode)
      requires Valid() && kind.KUnary?
      modifies repr
      ensures width == W.TestWidth(shape, mode0).width && mode == W.TestWidth(shape, mode0).mode
      ensures Holds(W.TestWidth(shape, mode0).ann, true)
      decreases shape, 1
    {
      var w;
      w, mode := left.TestWidth(mode0);
      ghost var t := W.TestWidth(left.shape, mode0);
      left.HoldsAny(t.ann);
      width := Store(w, mode, left.minWidth, left.signedFlag, t.ann, W.NotTested);
    }

    method TestLeftWidth(mode0: W.Mode) returns (width: nat, mode: W.Mode)
      requires Valid() && kind.KLeftWidth?
      modifies repr
      ensures width == W.TestWidth(shape, mode0).width && mode == W.TestWidth(shape, mode0).mode
      ensures Holds(W.TestWidth(shape, mode0).ann, true)
      decreases shape, 1
    {
      hide W.Elaborate, W.RightValue, W.LosslessWidth, EvalExpr, W.TestWidth;
      ghost var lt, rt := W.TestWidth(left.shape, W.SIZED), W.TestWidth(right.shape, W.SIZED);
      ghost var rc := EvalExpr(W.Elaborate(right.shape, rt.ann, rt.ann.S(), rt.width));
      ghost var t := W.FinishLeftWidth(kind.wop, left.shape, mode0, lt, rt, rc);
      UnfoldLeftWidth(kind.wop, left.shape, right.shape, mode0);
      var rw, rMode := right.TestWidth(W.SIZED);
      var lw, lMode := left.TestWidth(W.SIZED);
      mode := if mode0 == W.SIZED then lMode else mode0;
      var w := lw;
      if mode.AtLeast(W.EXPAND) {
        w, mode := SizeLeftWidth(lw, lMode, mode, rw, lt, rt);
      }
      width := FinishLeftWidth(w, mode, lt, rt);
      assert t == W.Finish(w, mode, if kind.wop == W.Shift(Shl) then W.MinWidth(lt.ann) else W.UINT_MAX,
                           lt.ann.S(), lt.ann, rt.ann);
    }

    method FinishLeftWidth(w: nat, mode: W.Mode, ghost lt: W.Test, ghost rt: W.Test) returns (width: nat)
      requires Valid() && kind.KLeftWidth? && left.Holds(lt.ann, true) && right.Holds(rt.ann, true)
      modifies this
      ensures width == w
      ensures Holds(W.Finish(w, mode, if kind.wop == W.Shift(Shl) then W.MinWidth(lt.ann) else W.UINT_MAX,
                             lt.ann.S(), lt.ann, rt.ann).ann, true)
    {
      left.HoldsAny(lt.ann);
      width := Store(w, mode, if kind.wop == W.Shift(Shl) then left.minWidth else W.UINT_MAX, left.signedFlag,
                     lt.ann, rt.ann);
    }

    /** The lossless width of a shift or power, from the best guess at its right operand. */
    method SizeLeftWidth(lw: nat, lMode: W.Mode, mode0: W.Mode, rw: nat, ghost lt: W.Test, ghost rt: W.Test)
      returns (w: nat, mode: W.Mode)
      requires Valid() && kind.KLeftWidth? && lt.width == lw && lt.mode == lMode && rt.width == rw
      requires left.Holds(lt.ann, true) && right.Holds(rt.ann, true)
      modifies right.repr
      ensures left.Holds(lt.ann, true) && right.Holds(rt.ann, true)
      ensures
        var rp := EvalExpr(W.Elaborate(right.shape, rt.ann, rt.ann.S(), rw));
        var use := W.LosslessWidth(kind.wop, left.shape, lt, rp, W.RightValue(kind.wop, rw, rt.ann.S(), rp));
        && w == (if !rp.NConst? && use > lw && use > W.INTEGER_WIDTH then W.INTEGER_WIDTH else use)
        && mode == if (kind.wop == W.Shift(Shr) || kind.wop == W.Shift(Sar)) && mode0 == W.LOSSLESS && lt.ann.S()
                   then W.UPSIZE else mode0
      decreases shape, 0
    {
      hide W.RightValue, W.PowerWidth, W.PowLen, W.TestWidth, W.Elaborate, EvalExpr;
      left.HoldsAny(lt.ann);
      right.HoldsAny(rt.ann);
      var rp := right.ElaborateExpr(rw, rt.ann);
      rp := EvalExpr(rp);
      mode := mode0;
      var rVal := W.RightValue(kind.wop, rw, right.signedFlag, rp);
      w := lw;
      match kind.wop {
        case Shift(op) =>
          if op.Shl? {
            if lMode != W.SIZED { w := w + rVal; }
          } else if mode == W.LOSSLESS && left.signedFlag {
            mode := W.UPSIZE;
          }
        case Power =>
          if left.kind.KNumber? && rp.NConst? {
            w := Max(w, W.PowLen(left.kind.lit, rp.bits, rp.signed));
          } else {
            w := W.PowerWidth(w, rVal, left.signedFlag);
          }
      }
      if !rp.NConst? && w > lw && w > W.INTEGER_WIDTH { w := W.INTEGER_WIDTH; }
    }

    // ----- elaboration -----

    method ElaborateExpr(w: nat, ghost a: W.Ann) returns (n: NetExpr)
      requires Valid() && Holds(a, false)
      modifies repr
      ensures n == W.Elaborate(shape, a, old(signedFlag), w)
      ensures Holds(a, false) && signedFlag == old(signedFlag)
      decreases shape, 2
    {
      match kind {
        case KNumber(lit) => n := NConst(W.CastNumber(lit, w, signedFlag), signedFlag);
        case KOperand(id, wid, s, two) => n := PadToWidth(NSignal(id, wid, s, two), w, signedFlag);
        case KBinary(op) => n := ElaborateBinary(w, a);
        case KCompare(op) => n := ElaborateCompare(w, a);
        case KLeftWidth(op) => n := ElaborateLeftWidth(w, a);
        case KTernary => n := ElaborateTernary(w, a);
        case KUnary(op) =>
          left.CastSigned(signedFlag, a.l);
          var ip := left.ElaborateExpr(w, a.l);
          n := MakeUnary(op, ip, w, signedFlag);
        case KReduction(op) =>
          var ip := left.ElaborateExpr(left.exprWidth, a.l);
          n := PadToWidth(MakeReduce(op, ip), w, signedFlag);
      }
    }

    method ElaborateBinary(w: nat, ghost a: W.Ann) returns (n: NetExpr)
      requires Valid() && Holds(a, false) && kind.KBinary?
      modifies repr
      ensures n == W.Elaborate(shape, a, old(signedFlag), w)
      ensures Holds(a, false) && signedFlag == old(signedFlag)
      decreases shape, 1
    {
      right.CastSigned(signedFlag, a.r);
      left.CastSigned(signedFlag, a.l);
      var lp := left.ElaborateExpr(w, a.l);
      var rp := right.ElaborateExpr(w, a.r);
      if kind.bop.Mul? { n := MakeMult(lp, rp, w, signedFlag); } else { n := NBinary(kind.bop, lp, rp, w, signedFlag); }
    }

    method ElaborateCompare(w: nat, ghost a: W.Ann) returns (n: NetExpr)
      requires Valid() && Holds(a, false) && kind.KCompare?
      modifies repr
      ensures n == W.Elaborate(shape, a, old(signedFlag), w)
      ensures Holds(a, false) && signedFlag == old(signedFlag)
      decreases shape, 1
    {
      if !left.signedFlag { right.CastSigned(false, a.r); }
      if !right.signedFlag { left.CastSigned(false, a.l); }
      var lp := left.ElaborateExpr(lWidth, a.l);
      var rp := right.ElaborateExpr(rWidth, a.r);
      n := PadToWidth(NCompare(kind.cop, EvalExpr(lp), EvalExpr(rp), false), w, signedFlag);
    }

    method ElaborateLeftWidth(w: nat, ghost a: W.Ann) returns (n: NetExpr)
      requires Valid() && Holds(a, false) && kind.KLeftWidth?
      modifies repr
      ensures n == W.Elaborate(shape, a, old(signedFlag), w)
      ensures Holds(a, false) && signedFlag == old(signedFlag)
      decreases shape, 1
    {
      left.CastSigned(signedFlag, a.l);
      var rw := right.exprWidth;
      var lp := left.ElaborateExpr(w, a.l);
      var rp := right.ElaborateExpr(rw, a.r);
      match kind.wop {
        case Power => n := NPower(EvalExpr(lp), EvalExpr(rp), w, signedFlag);
        case Shift(op) => n := MakeShift(op, EvalExpr(lp), EvalExpr(W.AsUnsigned(rp)), w, signedFlag);
      }
    }

    method ElaborateTernary(w: nat, ghost a: W.Ann) returns (n: NetExpr)
      requires Valid() && Holds(a, false) && kind.KTernary?
      modifies repr
      ensures n == W.Elaborate(shape, a, old(signedFlag), w)
      ensures Holds(a, false) && signedFlag == old(signedFlag)
      decreases shape, 1
    {
      hide W.Elaborate, W.ElaborateSelf, EvalExpr, ConditionReduce;
      W.UnfoldTernary(expr.shape, left.shape, right.shape, a, signedFlag, w);
      var con := expr.ElabAndEval();
      con := ConditionReduce(con);
      left.CastSigned(signedFlag, a.l);
      right.CastSigned(signedFlag, a.r);
      if con.NConst? && con.bits == [V1] {
        n := left.ElaborateExpr(w, a.l);
        n := EvalExpr(n);
      } else if con.NConst? && con.bits == [V0] {
        n := right.ElaborateExpr(w, a.r);
        n := EvalExpr(n);
      } else {
        var tru := left.ElaborateExpr(w, a.l);
        var fal := right.ElaborateExpr(w, a.r);
        n := NTernary(con, EvalExpr(tru), EvalExpr(fal), w, signedFlag);
      }
    }

    /** Test and elaborate an expression that has no context. */
    method ElabAndEval() returns (n: NetExpr)
      requires Valid()
      modifies repr
      ensures n == W.ElaborateSelf(shape)
      decreases shape, 3
    {
      ghost var t := W.TestWidth(shape, W.SIZED);
      var lossless, mode := TestWidth(W.SIZED);
      var w := exprWidth;
      if mode.AtLeast(W.LOSSLESS) && w > W.WIDTH_CAP { w := W.WIDTH_CAP; }
      n := ElaborateExpr(w, t.ann);
      n := EvalExpr(n);
    }
  }
}
