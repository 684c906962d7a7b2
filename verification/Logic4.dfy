/** Four-state logic values and vectors, least significant bit first, and the
    two's-complement reading of the vectors that hold no x or z. */
module Logic4 {

  datatype V = V0 | V1 | Vx | Vz

  type Vec = seq<V>

  predicate IsDefinedBit(b: V) { b == V0 || b == V1 }

  /** Where two values meet: what they agree on. */
  function MergeBit(a: V, b: V): V { if a == b && IsDefinedBit(a) then a else Vx }

  predicate Defined(v: Vec) { forall i :: 0 <= i < |v| ==> IsDefinedBit(v[i]) }

  predicate AllZero(v: Vec) { forall i :: 0 <= i < |v| ==> v[i] == V0 }

  function Fill(b: V, n: nat): (r: Vec) { seq(n, _ => b) }

  function Max(a: nat, b: nat): nat { if a >= b then a else b }

  // ----- powers of two -----

  function Pow2(n: nat): (r: nat)
    ensures r >= 1
  { if n == 0 then 1 else 2 * Pow2(n - 1) }

  lemma {:induction false} Pow2Add(a: nat, b: nat)
    ensures Pow2(a + b) == Pow2(a) * Pow2(b)
  {
    if a > 0 { Pow2Add(a - 1, b); }
  }

  lemma {:induction false} Pow2Monotone(a: nat, b: nat)
    requires a <= b
    ensures Pow2(a) <= Pow2(b)
  {
    if a < b { Pow2Monotone(a, b - 1); }
  }

  // ----- integers as vectors -----

  /** Bit `i` of the infinite two's-complement form of `n`. */
  predicate Bit(n: int, i: nat)
    decreases i
  {
    if i == 0 then n % 2 == 1 else Bit(n / 2, i - 1)
  }

  function FromBool(b: bool): V { if b then V1 else V0 }

  /** The low `w` bits of `n`. */
  function FromInt(n: int, w: nat): (v: Vec)
    ensures |v| == w
    ensures Defined(v)
  {
    seq(w, i requires 0 <= i => FromBool(Bit(n, i)))
  }

  function ToNat(v: Vec): (n: nat)
  {
    if |v| == 0 then 0 else (if v[0] == V1 then 1 else 0) + 2 * ToNat(v[1..])
  }

  function SignBit(v: Vec): V { if |v| == 0 then V0 else v[|v| - 1] }

  function ToInt(v: Vec, signed: bool): int
  {
    if signed && SignBit(v) == V1 then ToNat(v) - Pow2(|v|) else ToNat(v)
  }

  /** `n` is representable in `w` bits of the given signedness. */
  predicate Fits(n: int, w: nat, signed: bool)
  {
    if signed then w >= 1 && 0 - Pow2(w - 1) <= n < Pow2(w - 1) else 0 <= n < Pow2(w)
  }

  /** Width extension: by the top bit when signed, by zero otherwise. */
  function Pad(v: Vec, w: nat, signed: bool): (r: Vec)
    ensures |r| == Max(w, |v|)
  {
    if w <= |v| then v else v + Fill(if signed then SignBit(v) else V0, w - |v|)
  }

  /** Truncate or extend to exactly `w` bits. */
  function Resize(v: Vec, w: nat, signed: bool): (r: Vec)
    ensures |r| == w
  {
    if w < |v| then v[..w] else Pad(v, w, signed)
  }

  lemma FromIntTake(n: int, w: nat, k: nat)
    requires k <= w
    ensures FromInt(n, w)[..k] == FromInt(n, k)
  {
  }

  /** Vectors only see integers modulo 2^w. */
  lemma FromIntPeriodic(n: int, q: int, w: nat)
    ensures FromInt(n + q * Pow2(w), w) == FromInt(n, w)
  {
    forall i: nat | i < w ensures Bit(n + q * Pow2(w), i) == Bit(n, i) { BitPeriodic(n, q, w, i); }
  }

  lemma {:induction false} BitPeriodic(n: int, q: int, w: nat, i: nat)
    requires i < w
    ensures Bit(n + q * Pow2(w), i) == Bit(n, i)
    decreases w
  {
    var t := q * Pow2(w - 1);
    assert q * Pow2(w) == 2 * t;
    assert (n + 2 * t) / 2 == n / 2 + t && (n + 2 * t) % 2 == n % 2;
    if i > 0 { BitPeriodic(n / 2, q, w - 1, i - 1); }
  }

  lemma {:induction false} ToNatBound(v: Vec)
    ensures ToNat(v) < Pow2(|v|)
  {
    if |v| > 0 { ToNatBound(v[1..]); }
  }

  lemma {:induction false} ToNatFill(b: V, n: nat)
    ensures ToNat(Fill(b, n)) == if b == V1 then Pow2(n) - 1 else 0
  {
    if n > 0 {
      assert Fill(b, n)[1..] == Fill(b, n - 1);
      ToNatFill(b, n - 1);
    }
  }

  lemma {:induction false} BitOfNat(v: Vec, i: nat)
    requires i < |v|
    ensures Bit(ToNat(v), i) <==> v[i] == V1
    decreases i
  {
    assert ToNat(v) / 2 == ToNat(v[1..]);
    if i > 0 { BitOfNat(v[1..], i - 1); }
  }

  lemma FromIntToNat(v: Vec)
    requires Defined(v)
    ensures FromInt(ToNat(v), |v|) == v
  {
    forall i: nat | i < |v| ensures Bit(ToNat(v), i) <==> v[i] == V1 { BitOfNat(v, i); }
  }

  lemma FromIntToInt(v: Vec, signed: bool)
    requires Defined(v)
    ensures FromInt(ToInt(v, signed), |v|) == v
  {
    FromIntToNat(v);
    FromIntPeriodic(ToNat(v) - Pow2(|v|), 1, |v|);
  }

  /** The vector of `n` reads back as `n` up to a multiple of 2^w. */
  lemma {:induction false} ToNatFromInt(n: int, w: nat) returns (q: int)
    ensures n == ToNat(FromInt(n, w)) + q * Pow2(w)
    decreases w
  {
    if w == 0 {
      q := n;
    } else {
      q := ToNatFromInt(n / 2, w - 1);
      assert FromInt(n, w)[1..] == FromInt(n / 2, w - 1);
      assert q * Pow2(w) == 2 * (q * Pow2(w - 1));
    }
  }

  lemma {:induction false} SignBitOfNat(v: Vec)
    requires |v| > 0
    ensures SignBit(v) == V1 <==> ToNat(v) >= Pow2(|v| - 1)
  {
    if |v| > 1 {
      SignBitOfNat(v[1..]);
      assert SignBit(v[1..]) == SignBit(v);
    }
  }

  lemma ToIntFits(v: Vec, signed: bool)
    requires |v| > 0
    ensures Fits(ToInt(v, signed), |v|, signed)
  {
    ToNatBound(v);
    SignBitOfNat(v);
  }

  lemma CongruentWithin(a: int, b: int, q: int, p: int)
    requires p > 0 && a == b + q * p && -p < a - b < p
    ensures a == b
  {
    assert q >= 1 ==> (q - 1) * p >= 0;
    assert q <= -1 ==> (-q - 1) * p >= 0;
  }

  lemma FitsApart(a: int, b: int, w: nat, signed: bool)
    requires w > 0 && Fits(a, w, signed) && Fits(b, w, signed)
    ensures 0 - Pow2(w) < a - b < Pow2(w)
  {
  }

  lemma ToIntCongruent(n: int, w: nat, signed: bool) returns (q: int)
    ensures n == ToInt(FromInt(n, w), signed) + q * Pow2(w)
  {
    q := ToNatFromInt(n, w);
    if signed && SignBit(FromInt(n, w)) == V1 {
      var p := Pow2(w);
      assert (q + 1) * p == q * p + p;
      q := q + 1;
    }
  }

  lemma ToIntFromInt(n: int, w: nat, signed: bool)
    requires Fits(n, w, signed) && w > 0
    ensures ToInt(FromInt(n, w), signed) == n
  {
    var q := ToIntCongruent(n, w, signed);
    ToIntFits(FromInt(n, w), signed);
    FitsApart(n, ToInt(FromInt(n, w), signed), w, signed);
    CongruentWithin(n, ToInt(FromInt(n, w), signed), q, Pow2(w));
  }

  /** Above the bits a value needs, every bit repeats its sign. */
  lemma {:induction false} HighBits(n: int, w: nat, i: nat)
    requires 0 - Pow2(w) <= n < Pow2(w) && w <= i
    ensures Bit(n, i) <==> n < 0
    decreases i
  {
    if i > 0 { HighBits(n / 2, if w == 0 then 0 else w - 1, i - 1); }
  }

  lemma FromIntZero(w: nat)
    ensures FromInt(0, w) == Fill(V0, w)
  {
    forall i: nat | i < w ensures !Bit(0, i) { HighBits(0, 0, i); }
  }

  /** Extending the vector of a value that fits gives the wider vector of it. */
  lemma PadFromInt(n: int, w: nat, wide: nat, signed: bool)
    requires 0 < w <= wide && Fits(n, w, signed)
    ensures Pad(FromInt(n, w), wide, signed) == FromInt(n, wide)
  {
    var low := if signed then w - 1 else w;
    forall i: nat | low <= i ensures Bit(n, i) <==> n < 0 { HighBits(n, low, i); }
  }

  lemma FitsWider(n: int, w: nat, wide: nat, signed: bool)
    requires w <= wide && Fits(n, w, signed)
    ensures Fits(n, wide, signed)
  {
    Pow2Monotone(w, wide);
    if signed { Pow2Monotone(w - 1, wide - 1); }
  }
}
