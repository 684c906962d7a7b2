/** Elaborated expression trees, their four-state meaning, and the
    simplifications elaboration makes while it builds them. */
module NetExprs {
  import opened Logic4
  import opened VecOps

  datatype NetExpr =
    | NConst(bits: Vec, signed: bool)
    | NSignal(id: nat, width: nat, signed: bool, twoState: bool)
    | NPad(arg: NetExpr, width: nat, signed: bool)
    | NBitSel(arg: NetExpr, index: nat, signed: bool)
    | NBinary(bop: BinOp, left: NetExpr, right: NetExpr, width: nat, signed: bool)
    | NShift(sop: ShiftOp, left: NetExpr, right: NetExpr, width: nat, signed: bool)
    | NPower(left: NetExpr, right: NetExpr, width: nat, signed: bool)
    | NCompare(cop: CmpOp, left: NetExpr, right: NetExpr, signed: bool)
    | NTernary(cond: NetExpr, left: NetExpr, right: NetExpr, width: nat, signed: bool)
    | NUnary(uop: UnOp, arg: NetExpr, width: nat, signed: bool)
    | NReduce(rop: RedOp, arg: NetExpr, signed: bool)
  {
    function Width(): nat
    {
      match this
      case NConst(b, _) => |b|
      case NBitSel(_, _, _) => 1
      case NCompare(_, _, _, _) => 1
      case NReduce(_, _, _) => 1
      case _ => width
    }

    /** The data type is two-state: the value never holds x or z. */
    predicate IsBool()
    {
      match this
      case NConst(b, _) => |b| > 0 && Defined(b)
      case NSignal(_, _, _, two) => two
      case NPad(a, _, _) => a.IsBool()
      case NBitSel(a, i, _) => a.IsBool() && i < a.Width()
      case NCompare(op, l, r, _) => op.CaseEq? || op.CaseNe? || (l.IsBool() && r.IsBool())
      case NTernary(c, l, r, _, _) => c.IsBool() && l.IsBool() && r.IsBool()
      case NUnary(_, a, _, _) => a.IsBool()
      case NReduce(_, a, _) => a.IsBool()
      case _ => false
    }

    predicate IsConst()
    {
      match this
      case NConst(_, _) => true
      case NSignal(_, _, _, _) => false
      case NPad(a, _, _) => a.IsConst()
      case NBitSel(a, _, _) => a.IsConst()
      case NBinary(_, l, r, _, _) => l.IsConst() && r.IsConst()
      case NShift(_, l, r, _, _) => l.IsConst() && r.IsConst()
      case NPower(l, r, _, _) => l.IsConst() && r.IsConst()
      case NCompare(_, l, r, _) => l.IsConst() && r.IsConst()
      case NTernary(c, l, r, _, _) => c.IsConst() && l.IsConst() && r.IsConst()
      case NUnary(_, a, _, _) => a.IsConst()
      case NReduce(_, a, _) => a.IsConst()
    }

    /** Re-flag the node as signed or unsigned. */
    function CastSigned(s: bool): NetExpr { this.(signed := s) }
  }

  /** The vectors the signals carry. */
  type Env = nat -> Vec

  /** What a read of a signal yields: a vector of its width, without x or z when it is two-state. */
  function ReadSignal(v: Vec, width: nat, twoState: bool): (r: Vec)
    ensures |r| == width
    ensures twoState ==> Defined(r)
  {
    if |v| != width || (twoState && !Defined(v)) then Fill(if twoState then V0 else Vx, width) else v
  }

  function Eval(n: NetExpr, env: Env): (v: Vec)
    ensures |v| == n.Width()
  {
    match n
    case NConst(b, _) => b
    case NSignal(id, w, _, two) => ReadSignal(env(id), w, two)
    case NPad(a, w, s) => Resize(Eval(a, env), w, s)
    case NBitSel(a, i, _) => [if i < a.Width() then Eval(a, env)[i] else Vx]
    case NBinary(op, l, r, w, s) =>
      VecBinary(op, Resize(Eval(l, env), w, s), Resize(Eval(r, env), w, s), s)
    case NShift(op, l, r, w, s) => VecShift(op, Resize(Eval(l, env), w, s), Eval(r, env), s)
    case NPower(l, r, w, s) => VecPower(Resize(Eval(l, env), w, s), s, Eval(r, env), r.signed)
    case NCompare(op, l, r, _) =>
      var s := l.signed && r.signed;
      var w := Max(l.Width(), r.Width());
      [VecCompare(op, Pad(Eval(l, env), w, s), Pad(Eval(r, env), w, s), s)]
    case NTernary(c, l, r, w, s) =>
      VecTernary(Truth(Eval(c, env)), Resize(Eval(l, env), w, s), Resize(Eval(r, env), w, s))
    case NUnary(op, a, w, s) => VecUnary(op, Resize(Eval(a, env), w, s))
    case NReduce(op, a, _) => [Reduce(op, Eval(a, env))]
  }

  // The meaning of single nodes; with these the proofs below need not unfold `Eval`.

  lemma EvalConst(b: Vec, s: bool, env: Env)
    ensures Eval(NConst(b, s), env) == b
  {}

  lemma EvalSignal(id: nat, w: nat, s: bool, two: bool, env: Env)
    ensures Eval(NSignal(id, w, s, two), env) == ReadSignal(env(id), w, two)
  {}

  lemma EvalPad(a: NetExpr, w: nat, s: bool, env: Env)
    ensures Eval(NPad(a, w, s), env) == Resize(Eval(a, env), w, s)
  {}

  lemma EvalBitSel(a: NetExpr, i: nat, s: bool, env: Env)
    ensures Eval(NBitSel(a, i, s), env) == [if i < a.Width() then Eval(a, env)[i] else Vx]
  {}

  lemma EvalBinary(op: BinOp, l: NetExpr, r: NetExpr, w: nat, s: bool, env: Env)
    requires l.Width() == w == r.Width()
    ensures Eval(NBinary(op, l, r, w, s), env) == VecBinary(op, Eval(l, env), Eval(r, env), s)
  {}

  lemma EvalShift(op: ShiftOp, l: NetExpr, r: NetExpr, w: nat, s: bool, env: Env)
    requires l.Width() == w
    ensures Eval(NShift(op, l, r, w, s), env) == VecShift(op, Eval(l, env), Eval(r, env), s)
  {}

  lemma EvalPower(l: NetExpr, r: NetExpr, w: nat, s: bool, env: Env)
    requires l.Width() == w
    ensures Eval(NPower(l, r, w, s), env) == VecPower(Eval(l, env), s, Eval(r, env), r.signed)
  {}

  lemma EvalCompare(op: CmpOp, l: NetExpr, r: NetExpr, s: bool, env: Env)
    ensures Eval(NCompare(op, l, r, s), env)
         == [VecCompare(op, Pad(Eval(l, env), Max(l.Width(), r.Width()), l.signed && r.signed),
                            Pad(Eval(r, env), Max(l.Width(), r.Width()), l.signed && r.signed),
                            l.signed && r.signed)]
  {}

  lemma EvalTernary(c: NetExpr, l: NetExpr, r: NetExpr, w: nat, s: bool, env: Env)
    ensures Eval(NTernary(c, l, r, w, s), env)
         == VecTernary(Truth(Eval(c, env)), Resize(Eval(l, env), w, s), Resize(Eval(r, env), w, s))
  {}

  lemma EvalUnary(op: UnOp, a: NetExpr, w: nat, s: bool, env: Env)
    ensures Eval(NUnary(op, a, w, s), env) == VecUnary(op, Resize(Eval(a, env), w, s))
  {}

  lemma EvalReduce(op: RedOp, a: NetExpr, s: bool, env: Env)
    ensures Eval(NReduce(op, a, s), env) == [Reduce(op, Eval(a, env))]
  {}

  lemma {:induction false} ConstIgnoresEnv(n: NetExpr, e1: Env, e2: Env)
    requires n.IsConst()
    ensures Eval(n, e1) == Eval(n, e2)
  {
    match n {
      case NConst(_, _) =>
      case NSignal(_, _, _, _) =>
      case NPad(a, _, _) => ConstIgnoresEnv(a, e1, e2);
      case NBitSel(a, _, _) => ConstIgnoresEnv(a, e1, e2);
      case NBinary(_, l, r, _, _) => ConstIgnoresEnv(l, e1, e2); ConstIgnoresEnv(r, e1, e2);
      case NShift(_, l, r, _, _) => ConstIgnoresEnv(l, e1, e2); ConstIgnoresEnv(r, e1, e2);
      case NPower(l, r, _, _) => ConstIgnoresEnv(l, e1, e2); ConstIgnoresEnv(r, e1, e2);
      case NCompare(_, l, r, _) => ConstIgnoresEnv(l, e1, e2); ConstIgnoresEnv(r, e1, e2);
      case NTernary(c, l, r, _, _) =>
        ConstIgnoresEnv(c, e1, e2); ConstIgnoresEnv(l, e1, e2); ConstIgnoresEnv(r, e1, e2);
      case NUnary(_, a, _, _) => ConstIgnoresEnv(a, e1, e2);
      case NReduce(_, a, _) => ConstIgnoresEnv(a, e1, e2);
    }
  }

  lemma FoldsDefined(v: Vec)
    requires Defined(v)
    ensures IsDefinedBit(FoldAnd(v)) && IsDefinedBit(FoldOr(v)) && IsDefinedBit(FoldXor(v))
  {
    if |v| > 0 { FoldsDefined(v[1..]); }
  }

  lemma ReduceDefined(op: RedOp, v: Vec)
    requires Defined(v)
    ensures IsDefinedBit(Reduce(op, v))
  {
    FoldsDefined(v);
  }

  lemma UnaryDefined(op: UnOp, v: Vec)
    requires Defined(v)
    ensures Defined(VecUnary(op, v))
  {
  }

  lemma TernaryDefined(c: V, t: Vec, f: Vec)
    requires IsDefinedBit(c) && |t| == |f| && Defined(t) && Defined(f)
    ensures Defined(VecTernary(c, t, f))
  {
  }

  lemma CompareDefined(op: CmpOp, a: Vec, b: Vec, s: bool)
    requires |a| == |b| && (op.CaseEq? || op.CaseNe? || (Defined(a) && Defined(b)))
    ensures IsDefinedBit(VecCompare(op, a, b, s))
  {
  }

  /** A two-state expression never evaluates to x or z. */
  lemma {:induction false} BoolIsDefined(n: NetExpr, env: Env)
    requires n.IsBool()
    ensures Defined(Eval(n, env))
    decreases n, 1
  {
    match n {
      case NCompare(_, _, _, _) => BoolCompareIsDefined(n, env);
      case NTernary(_, _, _, _, _) => BoolTernaryIsDefined(n, env);
      case NPad(a, _, _) => BoolIsDefined(a, env);
      case NBitSel(a, _, _) => BoolIsDefined(a, env);
      case NUnary(op, a, w, s) =>
        BoolIsDefined(a, env);
        UnaryDefined(op, Resize(Eval(a, env), w, s));
      case NReduce(op, a, s) =>
        BoolIsDefined(a, env);
        ReduceDefined(op, Eval(a, env));
      case _ =>
    }
  }

  lemma BoolCompareIsDefined(n: NetExpr, env: Env)
    requires n.NCompare? && n.IsBool()
    ensures Defined(Eval(n, env))
    decreases n, 0
  {
    hide Eval;
    var s, w := n.left.signed && n.right.signed, Max(n.left.Width(), n.right.Width());
    EvalCompare(n.cop, n.left, n.right, n.signed, env);
    if !n.cop.CaseEq? && !n.cop.CaseNe? { BoolIsDefined(n.left, env); BoolIsDefined(n.right, env); }
    CompareDefined(n.cop, Pad(Eval(n.left, env), w, s), Pad(Eval(n.right, env), w, s), s);
  }

  lemma BoolTernaryIsDefined(n: NetExpr, env: Env)
    requires n.NTernary? && n.IsBool()
    ensures Defined(Eval(n, env))
    decreases n, 0
  {
    hide Eval;
    EvalTernary(n.cond, n.left, n.right, n.width, n.signed, env);
    BoolIsDefined(n.cond, env);
    BoolIsDefined(n.left, env);
    BoolIsDefined(n.right, env);
    FoldsDefined(Eval(n.cond, env));
    TernaryDefined(Truth(Eval(n.cond, env)), Resize(Eval(n.left, env), n.width, n.signed),
                   Resize(Eval(n.right, env), n.width, n.signed));
  }

  // ----- simplifications made while elaborating -----

  const NoSignals: Env := (_) => []

  /** Replace a constant tree by its value. */
  function EvalExpr(n: NetExpr): NetExpr
  {
    if n.IsConst() then NConst(Eval(n, NoSignals), n.signed) else n
  }

  lemma EvalExprSame(n: NetExpr, env: Env)
    ensures Eval(EvalExpr(n), env) == Eval(n, env)
    ensures EvalExpr(n).Width() == n.Width() && EvalExpr(n).signed == n.signed
  {
    if n.IsConst() { ConstIgnoresEnv(n, NoSignals, env); }
  }

  /** Extend an operand to the context width, flagging it with the context sign. */
  function PadToWidth(n: NetExpr, w: nat, s: bool): NetExpr
  {
    if w <= n.Width() then n.CastSigned(s)
    else if n.NConst? then NConst(Pad(n.bits, w, s), s)
    else NPad(n, w, s)
  }

  /** Nodes whose own value does not depend on their sign flag. */
  predicate SignFree(n: NetExpr) { n.NConst? || n.NSignal? || n.NBitSel? || n.NCompare? || n.NReduce? }

  lemma PadToWidthMeaning(n: NetExpr, w: nat, s: bool, env: Env)
    requires SignFree(n)
    ensures Eval(PadToWidth(n, w, s), env) == Pad(Eval(n, env), w, s)
    ensures PadToWidth(n, w, s).signed == s && PadToWidth(n, w, s).Width() == Max(w, n.Width())
  {
  }

  /** The value `as_ulong` reads: clipped to the native unsigned long. */
  const ULONG_MAX: nat := 0xFFFF_FFFF_FFFF_FFFF

  function AsUlong(v: Vec): nat
  {
    if !Defined(v) then 0 else if ToNat(v) > ULONG_MAX then ULONG_MAX else ToNat(v)
  }

  /** Build a shift. */
  function MakeShift(op: ShiftOp, lp: NetExpr, rp: NetExpr, wid: nat, s: bool): NetExpr
  {
    if lp.NConst? then
      if Defined(lp.bits) && AllZero(lp.bits) && rp.IsBool()
      then NConst(Fill(V0, wid), s)
      else NShift(op, lp, rp, wid, s)
    else if rp.NConst? then
      if !Defined(rp.bits) then NConst(Fill(Vx, wid), s)
      else if AsUlong(rp.bits) == 0 then lp
      else if op.Sar? && s && AsUlong(rp.bits) >= wid
      then PadToWidth(NBitSel(lp, if wid > 0 then wid - 1 else 0, false), wid, true)
      else if AsUlong(rp.bits) >= wid then NConst(Fill(V0, wid), s)
      else NShift(op, lp, rp, wid, s)
    else NShift(op, lp, rp, wid, s)
  }

  lemma ShiftByZero(op: ShiftOp, v: Vec, s: bool)
    ensures ShiftBy(op, v, 0, s) == v
  {
  }

  lemma ZeroShift(op: ShiftOp, v: Vec, n: nat, s: bool)
    requires AllZero(v)
    ensures ShiftBy(op, v, n, s) == v
  {
  }

  /** Shifting everything out leaves copies of the fill bit. */
  lemma ShiftOut(op: ShiftOp, v: Vec, n: nat, s: bool)
    requires 0 < |v| <= n
    ensures ShiftBy(op, v, n, s)
         == if op.Sar? && s then Pad([v[|v| - 1]], |v|, true) else Fill(V0, |v|)
  {
    if op.Shl? {
      assert v[..0] == [];
    } else {
      assert v[|v|..] == [];
    }
  }

  /** The shift that is built means the same as the plain shift operator. */
  lemma MakeShiftMeaning(op: ShiftOp, lp: NetExpr, rp: NetExpr, wid: nat, s: bool, env: Env)
    requires lp.Width() == wid && 0 < wid <= ULONG_MAX
    ensures Eval(MakeShift(op, lp, rp, wid, s), env)
         == VecShift(op, Eval(lp, env), Eval(rp, env), s)
  {
    hide Eval;
    EvalShift(op, lp, rp, wid, s, env);
    if lp.NConst? {
      EvalConst(lp.bits, lp.signed, env);
      EvalConst(Fill(V0, wid), s, env);
      if Defined(lp.bits) && AllZero(lp.bits) && rp.IsBool() {
        BoolIsDefined(rp, env);
        ZeroShift(op, lp.bits, ToNat(Eval(rp, env)), s);
      }
    } else if rp.NConst? {
      EvalConst(rp.bits, rp.signed, env);
      EvalConst(Fill(V0, wid), s, env);
      EvalConst(Fill(Vx, wid), s, env);
      ShiftByZero(op, Eval(lp, env), s);
      if Defined(rp.bits) && ToNat(rp.bits) >= wid {
        ShiftOut(op, Eval(lp, env), ToNat(rp.bits), s);
        EvalBitSel(lp, wid - 1, false, env);
        PadToWidthMeaning(NBitSel(lp, wid - 1, false), wid, true, env);
      }
    }
  }

  /** Build a product, with a constant operand moved to the right. */
  function MakeMult(lp0: NetExpr, rp0: NetExpr, wid: nat, s: bool): NetExpr
  {
    var lp := if lp0.NConst? then rp0 else lp0;
    var rp := if lp0.NConst? then lp0 else rp0;
    if rp.NConst? && !Defined(rp.bits) && !lp.IsBool() then NConst(Fill(Vx, wid), s)
    else if rp.NConst? && AllZero(rp.bits) && lp.IsBool() then NConst(Fill(V0, wid), s)
    else NBinary(Mul, lp, rp, wid, s)
  }

  lemma {:induction false} ToNatZero(v: Vec)
    requires AllZero(v)
    ensures ToNat(v) == 0
  {
    if |v| > 0 { ToNatZero(v[1..]); }
  }

  lemma MultCommutes(a: Vec, b: Vec, s: bool)
    requires |a| == |b|
    ensures VecBinary(Mul, a, b, s) == VecBinary(Mul, b, a, s)
  {
    assert ToNat(a) * ToNat(b) == ToNat(b) * ToNat(a);
  }

  lemma ZeroTimes(a: Vec, b: Vec, s: bool)
    requires |a| == |b| && AllZero(a) && Defined(b)
    ensures VecBinary(Mul, b, a, s) == Fill(V0, |a|)
  {
    ToNatZero(a);
    FromIntZero(|a|);
  }

  lemma MakeMultMeaning(lp: NetExpr, rp: NetExpr, wid: nat, s: bool, env: Env)
    requires lp.Width() == wid && rp.Width() == wid
    ensures Eval(MakeMult(lp, rp, wid, s), env)
         == VecBinary(Mul, Eval(lp, env), Eval(rp, env), s)
  {
    hide Eval;
    var a, b := Eval(lp, env), Eval(rp, env);
    MultCommutes(a, b, s);
    EvalBinary(Mul, lp, rp, wid, s, env);
    EvalBinary(Mul, rp, lp, wid, s, env);
    EvalConst(Fill(Vx, wid), s, env);
    EvalConst(Fill(V0, wid), s, env);
    if lp.NConst? {
      EvalConst(lp.bits, lp.signed, env);
      if AllZero(a) && rp.IsBool() { BoolIsDefined(rp, env); ZeroTimes(a, b, s); }
    } else if rp.NConst? {
      EvalConst(rp.bits, rp.signed, env);
      if AllZero(b) && lp.IsBool() { BoolIsDefined(lp, env); ZeroTimes(b, a, s); }
    }
  }

  /** Reduce a condition to one bit by comparing it with zero. */
  function ConditionReduce(n: NetExpr): NetExpr
  {
    if n.Width() == 1 then n
    else NCompare(Ne, n, NConst(Fill(V0, n.Width()), n.signed), false)
  }

  /** Build a conditional: a condition that is a constant 0 or 1 picks its clause outright. */
  function MakeTernary(con: NetExpr, tru: NetExpr, fal: NetExpr, wid: nat, s: bool): NetExpr
  {
    if con.NConst? && con.bits == [V1] then tru
    else if con.NConst? && con.bits == [V0] then fal
    else NTernary(con, tru, fal, wid, s)
  }

  /** Comparing with zero and or-ing the bits agree, also on x and z. */
  lemma NotEqualZeroIsTruth(v: Vec, s: bool)
    ensures VecCompare(Ne, v, Fill(V0, |v|), s) == Truth(v)
  {
    var z := Fill(V0, |v|);
    FoldOrCases(v);
    if Differ(v, z) {
      var i :| 0 <= i < |v| && IsDefinedBit(v[i]) && IsDefinedBit(z[i]) && v[i] != z[i];
    } else if Defined(v) {
      assert v == z;
    }
  }

  lemma {:induction false} FoldOrCases(v: Vec)
    ensures FoldOr(v) == V1 <==> exists i :: 0 <= i < |v| && v[i] == V1
    ensures FoldOr(v) == V0 <==> AllZero(v)
    ensures FoldOr(v) != Vz
  {
    if |v| > 0 {
      FoldOrCases(v[1..]);
      assert forall i :: 1 <= i < |v| ==> v[i] == v[1..][i - 1];
      if AllZero(v[1..]) && v[0] == V0 { assert AllZero(v); }
      if FoldOr(v[1..]) == V1 {
        var i :| 0 <= i < |v[1..]| && v[1..][i] == V1;
        assert v[i + 1] == V1;
      }
      if AllZero(v) { assert AllZero(v[1..]); }
    }
  }

  lemma ConditionReduceMeaning(c: NetExpr, env: Env)
    ensures |Eval(ConditionReduce(c), env)| == 1
    ensures Truth(Eval(ConditionReduce(c), env)) == Truth(Eval(c, env))
  {
    var v := Eval(c, env);
    if |v| != 1 {
      NotEqualZeroIsTruth(v, false);
      FoldOrCases(v);
      TruthOfBit(Truth(v));
    }
  }

  /** The conditional that is built means the same as the plain conditional operator. */
  lemma MakeTernaryMeaning(c: NetExpr, tru: NetExpr, fal: NetExpr, wid: nat, s: bool, env: Env)
    requires tru.Width() == wid && fal.Width() == wid
    ensures Eval(MakeTernary(c, tru, fal, wid, s), env)
         == VecTernary(Truth(Eval(c, env)), Eval(tru, env), Eval(fal, env))
  {
    hide Eval;
    EvalTernary(c, tru, fal, wid, s, env);
    if c.NConst? { EvalConst(c.bits, c.signed, env); }
    TruthOfBit(V1);
    TruthOfBit(V0);
  }

  lemma TruthOfBit(b: V)
    ensures Truth([b]) == if b == Vz then Vx else b
  {
    assert [b][1..] == [] && FoldOr([]) == V0;
    assert FoldOr([b]) == OrBit(b, V0);
  }

  /** Counts of the bits of a vector: ones, and neither zeros nor ones. */
  function CountOnes(v: Vec): nat { if |v| == 0 then 0 else (if v[0] == V1 then 1 else 0) + CountOnes(v[1..]) }
  function CountUnknown(v: Vec): nat
  { if |v| == 0 then 0 else (if IsDefinedBit(v[0]) then 0 else 1) + CountUnknown(v[1..]) }

  /** Logical negation of a constant, from the two counts. */
  method FoldNot(val: Vec) returns (res: V)
    ensures res == Reduce(LogNot, val)
  {
    var v1, vx := 0, 0;
    for idx := 0 to |val|
      invariant v1 + CountOnes(val[idx..]) == CountOnes(val)
      invariant vx + CountUnknown(val[idx..]) == CountUnknown(val)
    {
      match val[idx] {
        case V0 =>
        case V1 => v1 := v1 + 1;
        case _ => vx := vx + 1;
      }
    }
    FoldOrCounts(val);
    if v1 > 0 { res := V0; } else if vx > 0 { res := Vx; } else { res := V1; }
  }

  lemma {:induction false} FoldOrCounts(v: Vec)
    ensures FoldOr(v) == if CountOnes(v) > 0 then V1 else if CountUnknown(v) > 0 then Vx else V0
  {
    if |v| > 0 { FoldOrCounts(v[1..]); }
  }

  /** Build a reduction: only logical negation of a constant is folded. */
  function MakeReduce(op: RedOp, ip: NetExpr): NetExpr
  {
    if op.LogNot? && ip.NConst? then NConst([Reduce(LogNot, ip.bits)], false) else NReduce(op, ip, false)
  }

  /** Build a unary operator: `-` and `~` of a constant are folded, `+` vanishes. */
  function MakeUnary(op: UnOp, ip: NetExpr, wid: nat, s: bool): NetExpr
  {
    if op.Plus? then ip
    else if ip.NConst? then NConst(VecUnary(op, ip.bits), s)
    else NUnary(op, ip, wid, s)
  }

  // Every builder keeps the width and sign of its context.

  lemma ShiftShape(op: ShiftOp, lp: NetExpr, amount: NetExpr, w: nat, s: bool)
    requires lp.Width() == w && lp.signed == s && 0 < w
    ensures MakeShift(op, lp, amount, w, s).Width() == w && MakeShift(op, lp, amount, w, s).signed == s
  {
    hide Eval;
  }

  lemma MultShape(lp: NetExpr, rp: NetExpr, w: nat, s: bool)
    ensures MakeMult(lp, rp, w, s).Width() == w && MakeMult(lp, rp, w, s).signed == s
  {
  }

  lemma TernaryShape(c: NetExpr, lp: NetExpr, rp: NetExpr, w: nat, s: bool)
    requires lp.Width() == w == rp.Width() && lp.signed == s == rp.signed
    ensures MakeTernary(c, lp, rp, w, s).Width() == w && MakeTernary(c, lp, rp, w, s).signed == s
  {
  }

  lemma UnaryShape(op: UnOp, lp: NetExpr, w: nat, s: bool)
    requires lp.Width() == w && lp.signed == s
    ensures MakeUnary(op, lp, w, s).Width() == w && MakeUnary(op, lp, w, s).signed == s
  {
  }
}
