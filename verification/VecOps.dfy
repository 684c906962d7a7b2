/** The Verilog operators on four-state vectors (IEEE Std 1364-2005, section 5.1),
    their integer counterparts, and the lemmas that connect the two. */
module VecOps {
  import opened Logic4
  import opened Verinums

  datatype BinOp = Add | Sub | Mul | Div | Mod | And | Or | Xor
  datatype ShiftOp = Shl | Shr | Sar
  datatype CmpOp = Lt | Le | Gt | Ge | Eq | Ne | CaseEq | CaseNe
  datatype UnOp = Plus | Minus | Not
  datatype RedOp = RedAnd | RedOr | RedXor | RedNand | RedNor | RedXnor | LogNot

  predicate IsBitwise(op: BinOp) { op.And? || op.Or? || op.Xor? }

  /** Operators for which the low bits of the result depend only on the low bits of the operands. */
  predicate IsRing(op: BinOp) { op.Add? || op.Sub? || op.Mul? || IsBitwise(op) }

  // ----- bits -----

  function NotBit(a: V): V { match a case V0 => V1 case V1 => V0 case _ => Vx }

  function AndBit(a: V, b: V): V
  {
    if a == V0 || b == V0 then V0 else if a == V1 && b == V1 then V1 else Vx
  }

  function OrBit(a: V, b: V): V
  {
    if a == V1 || b == V1 then V1 else if a == V0 && b == V0 then V0 else Vx
  }

  function XorBit(a: V, b: V): V
  {
    if !IsDefinedBit(a) || !IsDefinedBit(b) then Vx else if a == b then V0 else V1
  }

  function BitOp(op: BinOp, a: V, b: V): V
    requires IsBitwise(op)
  {
    match op case And => AndBit(a, b) case Or => OrBit(a, b) case _ => XorBit(a, b)
  }

  function Map2(op: BinOp, a: Vec, b: Vec): (r: Vec)
    requires IsBitwise(op) && |a| == |b|
    ensures |r| == |a|
  {
    seq(|a|, i requires 0 <= i < |a| => BitOp(op, a[i], b[i]))
  }

  function NotVec(a: Vec): (r: Vec)
    ensures |r| == |a|
  {
    seq(|a|, i requires 0 <= i < |a| => NotBit(a[i]))
  }

  // ----- binary operators -----

  function Abs(n: int): nat { if n < 0 then -n else n }

  /** Division truncating toward zero. */
  function TruncDiv(a: int, b: int): int
    requires b != 0
  {
    if (a < 0) == (b < 0) then Abs(a) / Abs(b) else -(Abs(a) / Abs(b))
  }

  function TruncMod(a: int, b: int): int
    requires b != 0
  { a - b * TruncDiv(a, b) }

  function VecBinary(op: BinOp, a: Vec, b: Vec, signed: bool): (r: Vec)
    requires |a| == |b|
    ensures |r| == |a|
  {
    if IsBitwise(op) then Map2(op, a, b)
    else if !Defined(a) || !Defined(b) then Fill(Vx, |a|)
    else match op
      case Add => FromInt(ToNat(a) + ToNat(b), |a|)
      case Sub => FromInt(ToNat(a) - ToNat(b), |a|)
      case Mul => FromInt(ToNat(a) * ToNat(b), |a|)
      case Div => if ToInt(b, signed) == 0 then Fill(Vx, |a|)
                  else FromInt(TruncDiv(ToInt(a, signed), ToInt(b, signed)), |a|)
      case Mod => if ToInt(b, signed) == 0 then Fill(Vx, |a|)
                  else FromInt(TruncMod(ToInt(a, signed), ToInt(b, signed)), |a|)
      case _ => a
  }

  // ----- shifts and power -----

  function VecShift(op: ShiftOp, a: Vec, amount: Vec, signed: bool): (r: Vec)
    ensures |r| == |a|
  {
    if !Defined(amount) then Fill(Vx, |a|) else ShiftBy(op, a, ToNat(amount), signed)
  }

  function ShiftBy(op: ShiftOp, a: Vec, n: nat, signed: bool): (r: Vec)
    ensures |r| == |a|
  {
    var k := if n <= |a| then n else |a|;
    match op
    case Shl => Fill(V0, k) + a[..|a| - k]
    case Shr => a[k..] + Fill(V0, k)
    case Sar => a[k..] + Fill(if signed then SignBit(a) else V0, k)
  }

  function Pow(b: int, e: nat): int { if e == 0 then 1 else b * Pow(b, e - 1) }

  /** Table 5-6: the value of an integer power, None where it is unknown. */
  function IntPower(b: int, e: int): Option<int>
  {
    if e >= 0 then Some(Pow(b, e))
    else if b == 0 then None
    else if b == 1 || (b == -1 && e % 2 == 0) then Some(1)
    else if b == -1 then Some(-1)
    else Some(0)
  }

  function VecPower(a: Vec, signedA: bool, b: Vec, signedB: bool): (r: Vec)
    ensures |r| == |a|
  {
    if !Defined(a) || !Defined(b) then Fill(Vx, |a|)
    else match IntPower(ToInt(a, signedA), ToInt(b, signedB))
      case None => Fill(Vx, |a|)
      case Some(n) => FromInt(n, |a|)
  }

  // ----- unary operators, reductions, comparisons, selection -----

  function VecUnary(op: UnOp, a: Vec): (r: Vec)
    ensures |r| == |a|
  {
    match op
    case Plus => a
    case Not => NotVec(a)
    case Minus => if Defined(a) then FromInt(0 - ToNat(a), |a|) else Fill(Vx, |a|)
  }

  function FoldAnd(a: Vec): V { if |a| == 0 then V1 else AndBit(a[0], FoldAnd(a[1..])) }
  function FoldOr(a: Vec): V { if |a| == 0 then V0 else OrBit(a[0], FoldOr(a[1..])) }
  function FoldXor(a: Vec): V { if |a| == 0 then V0 else XorBit(a[0], FoldXor(a[1..])) }

  function Reduce(op: RedOp, a: Vec): V
  {
    match op
    case RedAnd => FoldAnd(a)
    case RedOr => FoldOr(a)
    case RedXor => FoldXor(a)
    case RedNand => NotBit(FoldAnd(a))
    case RedNor => NotBit(FoldOr(a))
    case RedXnor => NotBit(FoldXor(a))
    case LogNot => NotBit(FoldOr(a))
  }

  /** Some bit position is defined on both sides and differs. */
  predicate Differ(a: Vec, b: Vec)
    requires |a| == |b|
  {
    exists i :: 0 <= i < |a| && IsDefinedBit(a[i]) && IsDefinedBit(b[i]) && a[i] != b[i]
  }

  function VecCompare(op: CmpOp, a: Vec, b: Vec, signed: bool): V
    requires |a| == |b|
  {
    if op.CaseEq? then FromBool(a == b)
    else if op.CaseNe? then FromBool(a != b)
    else if (op.Eq? || op.Ne?) && Differ(a, b) then FromBool(op.Ne?)
    else if !Defined(a) || !Defined(b) then Vx
    else FromBool(IntCompare(op, ToInt(a, signed), ToInt(b, signed)))
  }

  predicate IntCompare(op: CmpOp, x: int, y: int)
  {
    match op
    case Lt => x < y
    case Le => x <= y
    case Gt => x > y
    case Ge => x >= y
    case Eq => x == y
    case CaseEq => x == y
    case Ne => x != y
    case CaseNe => x != y
  }

  /** The truth value of a condition: whether it differs from zero. */
  function Truth(a: Vec): V { FoldOr(a) }

  function VecTernary(c: V, t: Vec, f: Vec): (r: Vec)
    requires |t| == |f|
    ensures |r| == |t|
  {
    match c
    case V1 => t
    case V0 => f
    case _ => seq(|t|, i requires 0 <= i < |t| => MergeBit(t[i], f[i]))
  }

  // ----- integer counterparts -----

  function BitInt(op: BinOp, a: int, b: int): (r: int)
    requires IsBitwise(op)
    decreases Abs(a) + Abs(b)
  {
    if (a == 0 || a == -1) && (b == 0 || b == -1) then
      match op
      case And => if a == 0 then 0 else b
      case Or => if a == 0 then b else -1
      case _ => if a == b then 0 else -1
    else
      2 * BitInt(op, a / 2, b / 2) +
      (match op
       case And => if a % 2 == 1 && b % 2 == 1 then 1 else 0
       case Or => if a % 2 == 1 || b % 2 == 1 then 1 else 0
       case _ => if a % 2 == b % 2 then 0 else 1)
  }

  function IntBinary(op: BinOp, a: int, b: int): int
  {
    match op
    case Add => a + b
    case Sub => a - b
    case Mul => a * b
    case Div => if b == 0 then 0 else TruncDiv(a, b)
    case Mod => if b == 0 then 0 else TruncMod(a, b)
    case _ => BitInt(op, a, b)
  }

  /** One step of `BitInt`, also where it stops. */
  lemma BitIntStep(op: BinOp, a: int, b: int)
    requires IsBitwise(op)
    ensures BitInt(op, a, b) / 2 == BitInt(op, a / 2, b / 2)
    ensures FromBool(BitInt(op, a, b) % 2 == 1) == BitOp(op, FromBool(a % 2 == 1), FromBool(b % 2 == 1))
  {
    if (a == 0 || a == -1) && (b == 0 || b == -1) {
      assert a / 2 == a && b / 2 == b;
    } else {
      var h := BitInt(op, a / 2, b / 2);
      assert BitInt(op, a, b) == 2 * h || BitInt(op, a, b) == 2 * h + 1;
    }
  }

  lemma {:induction false} BitOfBitInt(op: BinOp, a: int, b: int, i: nat)
    requires IsBitwise(op)
    ensures FromBool(Bit(BitInt(op, a, b), i)) == BitOp(op, FromBool(Bit(a, i)), FromBool(Bit(b, i)))
    decreases i
  {
    BitIntStep(op, a, b);
    if i > 0 { BitOfBitInt(op, a / 2, b / 2, i - 1); }
  }

  lemma BitwiseFromInt(op: BinOp, a: int, b: int, w: nat)
    requires IsBitwise(op)
    ensures Map2(op, FromInt(a, w), FromInt(b, w)) == FromInt(BitInt(op, a, b), w)
  {
    forall i: nat | i < w
      ensures FromBool(Bit(BitInt(op, a, b), i)) == BitOp(op, FromBool(Bit(a, i)), FromBool(Bit(b, i)))
    {
      BitOfBitInt(op, a, b, i);
    }
  }

  lemma {:induction false} BitwiseFits(op: BinOp, a: int, b: int, w: nat, signed: bool)
    requires IsBitwise(op) && Fits(a, w, signed) && Fits(b, w, signed)
    ensures Fits(BitInt(op, a, b), w, signed)
    decreases w
  {
    if w > (if signed then 1 else 0) {
      BitIntStep(op, a, b);
      BitwiseFits(op, a / 2, b / 2, w - 1, signed);
    }
  }

  lemma {:induction false} BitOfNot(a: int, i: nat)
    ensures Bit(-a - 1, i) <==> !Bit(a, i)
    decreases i
  {
    assert (-a - 1) / 2 == -(a / 2) - 1;
    if i > 0 { BitOfNot(a / 2, i - 1); }
  }

  lemma NotFromInt(a: int, w: nat)
    ensures NotVec(FromInt(a, w)) == FromInt(-a - 1, w)
  {
    forall i: nat | i < w ensures Bit(-a - 1, i) <==> !Bit(a, i) { BitOfNot(a, i); }
  }

  /** Replacing the operands by congruent ones changes the result by a multiple of `p`. */
  lemma RingCongruent(op: BinOp, a: int, b: int, q1: int, q2: int, p: int) returns (q: int)
    requires op.Add? || op.Sub? || op.Mul?
    ensures IntBinary(op, a + q1 * p, b + q2 * p) == IntBinary(op, a, b) + q * p
  {
    match op {
      case Add => q := q1 + q2;
      case Sub => q := q1 - q2;
      case _ => q := MulCongruent(a, b, q1, q2, p);
    }
  }

  lemma MulCongruent(a: int, b: int, q1: int, q2: int, p: int) returns (q: int)
    ensures (a + q1 * p) * (b + q2 * p) == a * b + q * p
  {
    q := a * q2 + q1 * b + q1 * q2 * p;
    calc {
      (a + q1 * p) * (b + q2 * p);
      a * b + a * (q2 * p) + (q1 * p) * b + (q1 * p) * (q2 * p);
      a * b + (a * q2) * p + (q1 * b) * p + (q1 * q2 * p) * p;
      a * b + q * p;
    }
  }

  /** Arithmetic on vectors is arithmetic on integers, modulo the width. */
  lemma RingFromInt(op: BinOp, x: int, y: int, w: nat, signed: bool)
    requires IsRing(op)
    ensures VecBinary(op, FromInt(x, w), FromInt(y, w), signed) == FromInt(IntBinary(op, x, y), w)
  {
    if IsBitwise(op) {
      BitwiseFromInt(op, x, y, w);
    } else {
      var a: int, b: int := ToNat(FromInt(x, w)), ToNat(FromInt(y, w));
      var q1 := ToNatFromInt(x, w);
      var q2 := ToNatFromInt(y, w);
      var q := RingCongruent(op, a, b, q1, q2, Pow2(w));
      FromIntPeriodic(IntBinary(op, a, b), q, w);
    }
  }

  lemma NegateFromInt(x: int, w: nat)
    ensures VecUnary(Minus, FromInt(x, w)) == FromInt(-x, w)
  {
    var a: int := ToNat(FromInt(x, w));
    var q1 := ToNatFromInt(x, w);
    var q := RingCongruent(Sub, 0, a, 0, q1, Pow2(w));
    FromIntPeriodic(0 - a, q, w);
  }

  lemma {:induction false} BitOfDouble(x: int, n: nat, i: nat)
    ensures Bit(x * Pow2(n), i) <==> i >= n && Bit(x, i - n)
    decreases n
  {
    if n > 0 {
      var y := x * Pow2(n - 1);
      assert x * Pow2(n) == 2 * y;
      if i > 0 { BitOfDouble(x, n - 1, i - 1); }
    }
  }

  /** Shifting left by `n` multiplies by 2^n. */
  lemma ShiftLeftFromInt(x: int, w: nat, n: nat, signed: bool)
    ensures ShiftBy(Shl, FromInt(x, w), n, signed) == FromInt(x * Pow2(n), w)
  {
    forall i: nat | i < w ensures Bit(x * Pow2(n), i) <==> i >= n && Bit(x, i - n) { BitOfDouble(x, n, i); }
  }

  /** Division by 2^n, rounding down. */
  function DivPow2(x: int, n: nat): int
    decreases n
  { if n == 0 then x else DivPow2(x / 2, n - 1) }

  lemma {:induction false} BitOfHalved(x: int, n: nat, i: nat)
    ensures Bit(DivPow2(x, n), i) <==> Bit(x, i + n)
    decreases n
  {
    if n > 0 { BitOfHalved(x / 2, n - 1, i); }
  }

  /** Bit `i` of a right shift is bit `i + n`, or the fill bit. */
  lemma ShiftRightBit(op: ShiftOp, v: Vec, n: nat, signed: bool, i: nat)
    requires !op.Shl? && i < |v|
    ensures ShiftBy(op, v, n, signed)[i]
         == if i + n < |v| then v[i + n] else if op.Sar? && signed then SignBit(v) else V0
  {
  }

  /** Shifting right by `n` divides by 2^n, when the value fits. */
  lemma ShiftRightFromInt(op: ShiftOp, x: int, w: nat, n: nat, signed: bool)
    requires (op.Sar? || (op.Shr? && !signed)) && Fits(x, w, signed)
    ensures ShiftBy(op, FromInt(x, w), n, signed) == FromInt(DivPow2(x, n), w)
  {
    var low := if signed then w - 1 else w;
    var r := ShiftBy(op, FromInt(x, w), n, signed);
    forall i: nat | i < w ensures r[i] == FromBool(Bit(DivPow2(x, n), i)) {
      ShiftRightBit(op, FromInt(x, w), n, signed, i);
      BitOfHalved(x, n, i);
      if i + n >= w { HighBits(x, low, i + n); }
      if signed { HighBits(x, low, low); }
    }
  }

  lemma {:induction false} DivPow2Fits(x: int, w: nat, n: nat, signed: bool)
    requires Fits(x, w, signed)
    ensures Fits(DivPow2(x, n), w, signed)
    decreases n
  {
    if n > 0 { DivPow2Fits(x / 2, w, n - 1, signed); }
  }

  lemma {:induction false} FoldOrDefined(v: Vec)
    requires Defined(v)
    ensures FoldOr(v) == FromBool(ToNat(v) != 0)
  {
    if |v| > 0 { FoldOrDefined(v[1..]); }
  }

  lemma CompareFromInt(op: CmpOp, x: int, y: int, w: nat, signed: bool)
    requires w > 0 && Fits(x, w, signed) && Fits(y, w, signed)
    ensures VecCompare(op, FromInt(x, w), FromInt(y, w), signed) == FromBool(IntCompare(op, x, y))
  {
    ToIntFromInt(x, w, signed);
    ToIntFromInt(y, w, signed);
    if !Differ(FromInt(x, w), FromInt(y, w)) {
      assert FromInt(x, w) == FromInt(y, w);
    }
  }
}
