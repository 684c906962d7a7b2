/** Elaborating an enumeration: the values its names get, and when it is accepted. */
module Enumerations {
  import opened Logic4
  import opened Verinums

  /** How a name gets its value. `literalLen` is the width written on a sized literal, if it is one. */
  datatype Init = Implicit | NotConstant | Explicit(value: Verinum, literalLen: Option<nat>)

  datatype EnumItem = EnumItem(name: string, init: Init)

  datatype EnumType = EnumType(width: nat, signed: bool, twoState: bool)

  // ----- bringing a value to the width of the enumeration -----

  /** pad_to_width */
  function PadToWidth(v: Verinum, w: nat): (r: Vec)
    ensures |r| == Max(w, |v.bits|)
  {
    var top := SignBit(v.bits);
    var pad := if !v.hasSign && (top == V1 || v.hasLen) then V0 else top;
    if |v.bits| >= w then v.bits else v.bits + Fill(pad, w - |v.bits|)
  }

  function Sized(v: Verinum, w: nat): (r: Vec)
    ensures |r| == w
  {
    PadToWidth(v, w)[..w]
  }

  /** The bits cut off all repeat the top bit that stays; for an unsigned enumeration they may also be zero. */
  predicate UpperBitsMatch(v: Vec, w: nat, signed: bool)
    requires 0 < w < |v|
  {
    || (forall i :: w <= i < |v| ==> v[i] == v[w - 1])
    || (!signed && forall i :: w <= i < |v| ==> v[i] == V0)
  }

  /** What the elaborator demands of an explicit value. */
  predicate Accepted(v: Verinum, literalLen: Option<nat>, t: EnumType)
    requires t.width > 0
  {
    && (t.twoState ==> Defined(v.bits))
    && (literalLen.Some? ==> literalLen.value == t.width)
    && !((|v.bits| != t.width || !v.hasLen) && !t.signed && v.IsNegative())
    && (|v.bits| > t.width ==> UpperBitsMatch(v.bits, t.width, t.signed) && (v.hasSign || v.bits[t.width] != V1))
  }

  // ----- the values -----

  function Zero(w: nat): Vec { FromInt(0, w) }

  /** The increment: 1 in the width of the enumeration, which a one-bit signed enumeration reads as -1. */
  function OneValue(t: EnumType): Vec
    requires t.width > 0
  { FromInt(1, t.width) }

  /** The value after which the next one wraps, as the elaborator computes it: a power of two less the increment. */
  function MaxValue(t: EnumType): int
    requires t.width > 0
  {
    Pow2(if t.signed then t.width - 1 else t.width) - ToInt(OneValue(t), t.signed)
  }

  /** The comparison of a defined value with that one, which is by value (EqualIsSameValue). */
  predicate AtMax(v: Vec, t: EnumType)
    requires t.width > 0
  { ToInt(v, t.signed) == MaxValue(t) }

  function Successor(v: Vec): (r: Vec)
    ensures |r| == |v|
  { FromInt(ToNat(v) + 1, |v|) }

  /** The value of name `k`: its own if it has one, else the successor of the one before. */
  function ValueOf(items: seq<EnumItem>, k: nat, t: EnumType): (r: Vec)
    requires k < |items|
    ensures |r| == t.width
    decreases k
  {
    if items[k].init.Explicit? then Sized(items[k].init.value, t.width)
    else if k == 0 then Zero(t.width)
    else Successor(ValueOf(items, k - 1, t))
  }

  /** An explicit value is accepted; an implicit one has a defined value before it that is not the maximum. */
  predicate InitOk(items: seq<EnumItem>, k: nat, t: EnumType)
    requires k < |items| && t.width > 0
  {
    match items[k].init
    case NotConstant => false
    case Explicit(v, literalLen) => Accepted(v, literalLen, t)
    case Implicit => k == 0 || (Defined(ValueOf(items, k - 1, t)) && !AtMax(ValueOf(items, k - 1, t), t))
  }

  /** The name may have its value, and neither name nor value is taken. */
  predicate LegalItem(items: seq<EnumItem>, k: nat, t: EnumType, taken: set<string>)
    requires k < |items| && t.width > 0
  {
    && InitOk(items, k, t)
    && items[k].name !in taken
    && forall j :: 0 <= j < k ==> items[j].name != items[k].name && ValueOf(items, j, t) != ValueOf(items, k, t)
  }

  predicate Legal(items: seq<EnumItem>, n: nat, t: EnumType, taken: set<string>)
    requires n <= |items| && t.width > 0
  {
    forall k :: 0 <= k < n ==> LegalItem(items, k, t, taken)
  }

  // ----- what acceptance means -----

  lemma DoubleProduct(p: nat, h: nat)
    ensures (2 * p) * h == 2 * (p * h)
  {
  }

  lemma {:induction false} ToNatSplit(lo: Vec, hi: Vec)
    ensures ToNat(lo + hi) == ToNat(lo) + Pow2(|lo|) * ToNat(hi)
  {
    if |lo| == 0 {
      assert lo + hi == hi;
    } else {
      assert (lo + hi)[1..] == lo[1..] + hi;
      ToNatSplit(lo[1..], hi);
      DoubleProduct(Pow2(|lo| - 1), ToNat(hi));
      assert ToNat(lo + hi) == (if lo[0] == V1 then 1 else 0) + 2 * ToNat(lo[1..] + hi);
    }
  }

  /** Repeating the sign bit keeps a signed value, zeros keep an unsigned one. */
  lemma ExtendKeepsInt(v: Vec, n: nat, signed: bool)
    ensures ToInt(v + Fill(if signed then SignBit(v) else V0, n), signed) == ToInt(v, signed)
  {
    var b := if signed then SignBit(v) else V0;
    var r := v + Fill(b, n);
    ToNatSplit(v, Fill(b, n));
    ToNatFill(b, n);
    Pow2Add(|v|, n);
    assert |r| > |v| ==> r[|r| - 1] == b;
    assert n == 0 ==> r == v;
  }

  // ----- explicit values -----

  lemma WideFits(v: Verinum, t: EnumType)
    requires Defined(v.bits) && 0 < t.width < |v.bits| && Fits(v.Value(), t.width, t.signed)
    ensures Accepted(v, None, t)
  {
    var n := v.Value();
    FromIntToInt(v.bits, v.hasSign);
    var low := if t.signed then t.width - 1 else t.width;
    forall i: nat | low <= i ensures Bit(n, i) <==> n < 0 { HighBits(n, low, i); }
    assert forall i :: low <= i < |v.bits| ==> v.bits[i] == if n < 0 then V1 else V0;
    NegativeSign(v);
  }

  lemma NegativeSign(v: Verinum)
    requires |v.bits| > 0
    ensures v.IsNegative() <==> v.Value() < 0
  {
    ToNatBound(v.bits);
  }

  lemma WideAccepted(v: Verinum, t: EnumType)
    requires Defined(v.bits) && 0 < t.width < |v.bits| && Accepted(v, None, t)
    ensures Fits(v.Value(), t.width, t.signed)
  {
    var w, lo := t.width, v.bits[..t.width];
    var b := v.bits[w];
    assert forall i :: w <= i < |v.bits| ==> v.bits[i] == b;
    assert v.bits == lo + Fill(b, |v.bits| - w);
    if t.signed && v.hasSign {
      ExtendKeepsInt(lo, |v.bits| - w, true);
      ToIntFits(lo, true);
    } else {
      assert IsDefinedBit(b) && b == V0;
      ExtendKeepsInt(lo, |v.bits| - w, false);
      ToNatBound(lo);
      SignBitOfNat(lo);
    }
  }

  lemma NarrowFits(v: Verinum, t: EnumType)
    requires Defined(v.bits) && 0 < |v.bits| < t.width
    ensures Accepted(v, None, t) <==> Fits(v.Value(), t.width, t.signed)
  {
    ToIntFits(v.bits, v.hasSign);
    NegativeSign(v);
    Pow2Monotone(|v.bits|, t.width - 1);
    Pow2Monotone(|v.bits| - 1, t.width - 1);
  }

  /** Main result: a defined value of another width is accepted exactly when the enumeration can hold it. */
  lemma AcceptedWhenItFits(v: Verinum, t: EnumType)
    requires Defined(v.bits) && |v.bits| > 0 && t.width > 0 && |v.bits| != t.width
    ensures Accepted(v, None, t) <==> Fits(v.Value(), t.width, t.signed)
  {
    hide Accepted, Fits, ToInt;
    if |v.bits| < t.width {
      NarrowFits(v, t);
    } else {
      if Accepted(v, None, t) { WideAccepted(v, t); }
      if Fits(v.Value(), t.width, t.signed) { WideFits(v, t); }
    }
  }

  /** What is demanded of a defined value at the width of the enumeration, and of a literal with a width. */
  lemma AcceptedAtWidth(v: Verinum, literalLen: Option<nat>, t: EnumType)
    requires t.width > 0
    ensures Accepted(v, literalLen, t) <==> Accepted(v, None, t) && (literalLen == None || literalLen == Some(t.width))
    ensures Defined(v.bits) && |v.bits| == t.width ==>
      (Accepted(v, None, t) <==> v.hasLen || t.signed || !v.hasSign || SignBit(v.bits) == V0)
    ensures t.twoState && !Defined(v.bits) ==> !Accepted(v, literalLen, t)
  {
  }

  /** A defined value that fits is brought to width without changing the integer it stands for. */
  lemma SizedIsFromInt(v: Verinum, w: nat)
    requires Defined(v.bits) && |v.bits| > 0 && w > 0
    ensures Sized(v, w) == FromInt(v.Value(), w)
  {
    var n := v.Value();
    FromIntToInt(v.bits, v.hasSign);
    if |v.bits| < w {
      ToIntFits(v.bits, v.hasSign);
      PadFromInt(n, |v.bits|, w, v.hasSign);
      assert PadToWidth(v, w) == Pad(v.bits, w, v.hasSign);
    } else {
      FromIntTake(n, |v.bits|, w);
    }
  }

  /** Main result: an accepted value keeps its integer, except when only its signedness changes under a set top bit. */
  lemma AcceptedKeepsInteger(v: Verinum, literalLen: Option<nat>, t: EnumType)
    requires t.width > 0 && Accepted(v, literalLen, t) && Defined(v.bits) && |v.bits| > 0
    ensures ToInt(Sized(v, t.width), t.signed) == v.Value() <==>
      !(|v.bits| == t.width && SignBit(v.bits) == V1 && v.hasSign != t.signed)
  {
    hide Accepted, Fits, Sized, FromInt, PadToWidth;
    if |v.bits| == t.width {
      assert Sized(v, t.width) == v.bits by { SizedSame(v); }
    } else {
      assert Accepted(v, None, t) by { AcceptedPlain(v, literalLen, t); }
      AcceptedWhenItFits(v, t);
      SizedIsFromInt(v, t.width);
      ToIntFromInt(v.Value(), t.width, t.signed);
    }
  }

  lemma SizedSame(v: Verinum)
    ensures Sized(v, |v.bits|) == v.bits
  {
  }

  lemma AcceptedPlain(v: Verinum, literalLen: Option<nat>, t: EnumType)
    requires t.width > 0 && Accepted(v, literalLen, t)
    ensures Accepted(v, None, t)
  {
  }

  // ----- implicit values -----

  /** Constants of one signedness are equal when they stand for the same integer, whatever their lengths. */
  lemma EqualIsSameValue(left: Verinum, right: Verinum)
    requires Defined(left.bits) && Defined(right.bits) && |left.bits| > 0 && |right.bits| > 0
    requires left.hasSign == right.hasSign
    ensures Equal(left, right) <==> left.Value() == right.Value()
  {
    var m, s := Max(|left.bits|, |right.bits|), left.hasSign;
    var x, y := Pad(left.bits, m, s), Pad(right.bits, m, s);
    PaddedValue(left, m);
    PaddedValue(right, m);
    EqualWhenPadded(left, right, m);
  }

  /** Constants of different signedness are equal when they are as unsigned numbers. */
  lemma EqualIsUnsigned(left: Verinum, right: Verinum)
    requires Defined(left.bits) && Defined(right.bits) && left.hasSign != right.hasSign
    ensures Equal(left, right) <==> ToNat(left.bits) == ToNat(right.bits)
  {
    var m := Max(|left.bits|, |right.bits|);
    var x, y := left.bits + Fill(V0, m - |left.bits|), right.bits + Fill(V0, m - |right.bits|);
    ToNatZeros(left.bits, m - |left.bits|);
    ToNatZeros(right.bits, m - |right.bits|);
    FromIntToInt(x, false);
    FromIntToInt(y, false);
    assert Equal(left, right) <==> x == y by {
      if Equal(left, right) { assert forall i :: 0 <= i < m ==> x[i] == y[i]; }
      if x == y {
        forall i | 0 <= i < m
          ensures (if i < |left.bits| then left.bits[i] else V0) == (if i < |right.bits| then right.bits[i] else V0)
        {
          assert x[i] == y[i];
        }
      }
    }
  }

  lemma ToNatZeros(v: Vec, n: nat)
    ensures ToNat(v + Fill(V0, n)) == ToNat(v) && (Defined(v) ==> Defined(v + Fill(V0, n)))
  {
    ToNatSplit(v, Fill(V0, n));
    ToNatFill(V0, n);
  }

  lemma PaddedValue(v: Verinum, m: nat)
    requires Defined(v.bits) && 0 < |v.bits| <= m
    ensures Pad(v.bits, m, v.hasSign) == FromInt(v.Value(), m)
    ensures ToInt(Pad(v.bits, m, v.hasSign), v.hasSign) == v.Value()
  {
    FromIntToInt(v.bits, v.hasSign);
    ToIntFits(v.bits, v.hasSign);
    PadFromInt(v.Value(), |v.bits|, m, v.hasSign);
    FitsWider(v.Value(), |v.bits|, m, v.hasSign);
    ToIntFromInt(v.Value(), m, v.hasSign);
  }

  lemma EqualWhenPadded(left: Verinum, right: Verinum, m: nat)
    requires |left.bits| > 0 && |right.bits| > 0 && Defined(left.bits) && Defined(right.bits)
    requires left.hasSign == right.hasSign && m == Max(|left.bits|, |right.bits|)
    ensures Equal(left, right) <==> Pad(left.bits, m, left.hasSign) == Pad(right.bits, m, left.hasSign)
  {
    var s := left.hasSign;
    var x, y := Pad(left.bits, m, s), Pad(right.bits, m, s);
    if x == y {
      assert s ==> x[m - 1] == SignBit(left.bits) && y[m - 1] == SignBit(right.bits);
      assert forall i :: 0 <= i < m ==> x[i] == y[i];
    }
  }

  lemma IncrementValue(t: EnumType)
    requires t.width > 0
    ensures ToInt(OneValue(t), t.signed) == if t.signed && t.width == 1 then -1 else 1
  {
    if t.signed && t.width == 1 {
      assert OneValue(t) == [V1];
      assert ToNat([V1]) == 1;
    } else {
      assert t.signed ==> Pow2(t.width - 1) == 2 * Pow2(t.width - 2);
      ToIntFromInt(1, t.width, t.signed);
    }
  }

  /** The largest integer the enumeration can hold. */
  function Top(t: EnumType): int
    requires t.width > 0
  { Pow2(if t.signed then t.width - 1 else t.width) - 1 }

  /** A value's successor is one more, exactly unless the value is the largest. */
  lemma SuccessorAddsOne(v: Vec, t: EnumType)
    requires Defined(v) && |v| == t.width > 0
    ensures ToInt(Successor(v), t.signed) == ToInt(v, t.signed) + 1 <==> ToInt(v, t.signed) != Top(t)
  {
    var n := ToInt(v, t.signed);
    FromIntToInt(v, t.signed);
    ToIntFits(v, t.signed);
    FromIntPeriodic(n + 1, 1, t.width);
    assert Successor(v) == FromInt(n + 1, t.width);
    if n != Top(t) {
      ToIntFromInt(n + 1, t.width, t.signed);
    } else {
      ToIntFits(Successor(v), t.signed);
    }
  }

  /** Main result: a value that the check for wrapping lets pass is followed by one more, except 0 in a one-bit
      signed enumeration, where the maximum is computed as 2. */
  lemma UncheckedWrap(v: Vec, t: EnumType)
    requires Defined(v) && |v| == t.width > 0 && !AtMax(v, t)
    ensures ToInt(Successor(v), t.signed) == ToInt(v, t.signed) + 1 <==>
      !(t.signed && t.width == 1 && ToInt(v, t.signed) == 0)
  {
    hide Successor, ToInt, OneValue;
    IncrementValue(t);
    SuccessorAddsOne(v, t);
  }

  /** How many values there are from 0 up: implicit names can take so many. */
  function Room(t: EnumType): nat
    requires t.width > 0
  { if t.signed then Pow2(t.width - 1) else Pow2(t.width) }

  /** Main result: an implicit name after a defined value is refused exactly when that value is the largest integer
      the enumeration holds, except that a one-bit signed enumeration refuses none. */
  lemma RefusedExactlyWhen(items: seq<EnumItem>, k: nat, t: EnumType)
    requires 0 < k < |items| && t.width > 0 && items[k].init.Implicit? && Defined(ValueOf(items, k - 1, t))
    ensures InitOk(items, k, t) <==>
      ToInt(ValueOf(items, k - 1, t), t.signed) != Room(t) - 1 || (t.signed && t.width == 1)
  {
    hide ToInt, OneValue, ValueOf;
    IncrementValue(t);
    ToIntFits(ValueOf(items, k - 1, t), t.signed);
  }

  predicate AllImplicit(items: seq<EnumItem>) { forall k :: 0 <= k < |items| ==> items[k].init.Implicit? }

  predicate FreshNames(items: seq<EnumItem>, taken: set<string>)
  {
    && (forall k :: 0 <= k < |items| ==> items[k].name !in taken)
    && forall j, k :: 0 <= j < k < |items| ==> items[j].name != items[k].name
  }

  lemma {:induction false} CountedUp(items: seq<EnumItem>, k: nat, t: EnumType)
    requires k < |items| && t.width > 0 && AllImplicit(items)
    ensures ValueOf(items, k, t) == FromInt(k, t.width)
  {
    if k > 0 {
      CountedUp(items, k - 1, t);
      NextUp(k - 1, t.width);
    }
  }

  lemma NextUp(n: nat, w: nat)
    ensures Successor(FromInt(n, w)) == FromInt(n + 1, w)
  {
    var q := ToNatFromInt(n, w);
    FromIntPeriodic(ToNat(FromInt(n, w)) + 1, q, w);
  }

  lemma DifferentCounts(i: nat, j: nat, w: nat)
    requires i < j < Pow2(w)
    ensures FromInt(i, w) != FromInt(j, w)
  {
    ToIntFromInt(i, w, false);
    ToIntFromInt(j, w, false);
  }

  /** Main result: new names without values of their own are all legal exactly when there is room to count them up
      from 0 (a one-bit signed enumeration apart), and get their position as value. */
  lemma CountingIsLegal(items: seq<EnumItem>, t: EnumType, taken: set<string>)
    requires t.width > 0 && !(t.signed && t.width == 1) && AllImplicit(items) && FreshNames(items, taken)
    ensures Legal(items, |items|, t, taken) <==> |items| <= Room(t)
    ensures forall k :: 0 <= k < |items| ==> ValueOf(items, k, t) == FromInt(k, t.width)
  {
    hide FromInt, ValueOf, InitOk;
    assert Pow2(t.width) == 2 * Pow2(t.width - 1);
    forall k | 0 <= k < |items| ensures ValueOf(items, k, t) == FromInt(k, t.width) { CountedUp(items, k, t); }
    if |items| <= Room(t) {
      forall k | 0 <= k < |items| ensures LegalItem(items, k, t, taken) {
        CountIsOk(items, k, t);
        forall j | 0 <= j < k ensures ValueOf(items, j, t) != ValueOf(items, k, t) { DifferentCounts(j, k, t.width); }
      }
    } else {
      CountOverflows(items, t);
      assert !LegalItem(items, Room(t), t, taken);
    }
  }

  lemma CountIsOk(items: seq<EnumItem>, k: nat, t: EnumType)
    requires t.width > 0 && k < |items| && k < Room(t) && AllImplicit(items)
    ensures InitOk(items, k, t)
  {
    hide FromInt, AtMax;
    if k > 0 {
      CountedUp(items, k - 1, t);
      assert Pow2(t.width) == 2 * Pow2(t.width - 1);
      ToIntFromInt(k - 1, t.width, t.signed);
      DefinedCount(k - 1, t.width);
      RefusedExactlyWhen(items, k, t);
    }
  }

  lemma CountOverflows(items: seq<EnumItem>, t: EnumType)
    requires t.width > 0 && Room(t) < |items| && AllImplicit(items) && !(t.signed && t.width == 1)
    ensures !InitOk(items, Room(t), t)
  {
    hide FromInt, AtMax;
    var k := Room(t);
    CountedUp(items, k - 1, t);
    assert Pow2(t.width) == 2 * Pow2(t.width - 1);
    ToIntFromInt(k - 1, t.width, t.signed);
    DefinedCount(k - 1, t.width);
    RefusedExactlyWhen(items, k, t);
  }

  lemma DefinedCount(n: int, w: nat)
    ensures Defined(FromInt(n, w))
  {
  }

  /** Main result: without errors, values are pairwise distinct and as wide as the enumeration; an implicit
      value is 0 at the start and else one more than the value before, without wrapping, unless that value is
      0 in a one-bit signed enumeration. */
  lemma LegalValues(items: seq<EnumItem>, t: EnumType, taken: set<string>, k: nat)
    requires t.width > 0 && Legal(items, |items|, t, taken) && k < |items|
    ensures |ValueOf(items, k, t)| == t.width
    ensures forall j :: 0 <= j < |items| && j != k ==> ValueOf(items, j, t) != ValueOf(items, k, t)
    ensures items[k].init.Implicit? && k == 0 ==> ToInt(ValueOf(items, k, t), t.signed) == 0
    ensures items[k].init.Implicit? && k > 0 ==>
      (ToInt(ValueOf(items, k, t), t.signed) == ToInt(ValueOf(items, k - 1, t), t.signed) + 1 <==>
         !(t.signed && t.width == 1 && ToInt(ValueOf(items, k - 1, t), t.signed) == 0))
    ensures t.twoState ==> Defined(ValueOf(items, k, t))
  {
    hide Accepted, ToInt, Fits, AtMax, Successor, Sized, FromInt;
    assert LegalItem(items, k, t, taken);
    forall j | 0 <= j < |items| && j != k ensures ValueOf(items, j, t) != ValueOf(items, k, t) {
      assert LegalItem(items, j, t, taken);
    }
    match items[k].init {
      case Implicit =>
        if k == 0 { ZeroIsZero(t); }
        else { UncheckedWrap(ValueOf(items, k - 1, t), t); SuccessorDefined(ValueOf(items, k - 1, t)); }
      case Explicit(v, literalLen) =>
        if t.twoState { AcceptedDefined(v, literalLen, t); }
      case NotConstant =>
    }
  }

  /** The one-bit signed enumeration with two implicit names: no error, although the second value wraps to -1. */
  lemma OneBitSignedWraps()
    ensures var t := EnumType(1, true, true);
      var items := [EnumItem("A", Implicit), EnumItem("B", Implicit)];
      && Legal(items, 2, t, {})
      && ToInt(ValueOf(items, 0, t), true) == 0 && ToInt(ValueOf(items, 1, t), true) == -1
  {
    var t := EnumType(1, true, true);
    var items := [EnumItem("A", Implicit), EnumItem("B", Implicit)];
    var zero, one := ValueOf(items, 0, t), ValueOf(items, 1, t);
    assert zero == [V0] && ToNat([V0]) == 0;
    assert one == [V1] && ToNat([V1]) == 1;
    IncrementValue(t);
    assert !AtMax(zero, t);
    assert items[0].name != items[1].name by { assert "A"[0] != "B"[0]; }
    assert LegalItem(items, 0, t, {}) && LegalItem(items, 1, t, {});
  }

  /** A four-bit unsigned 15 is accepted by a four-bit signed enumeration, and stands for -1 there. */
  lemma SameWidthChangesInteger()
    ensures var v, t := Verinum([V1, V1, V1, V1], true, false), EnumType(4, true, true);
      Accepted(v, Some(4), t) && v.Value() == 15 && ToInt(Sized(v, 4), true) == -1
  {
    var v := Verinum([V1, V1, V1, V1], true, false);
    assert v.bits == Fill(V1, 4);
    ToNatFill(V1, 4);
    assert Pow2(4) == 16;
    SizedSame(v);
  }

  lemma ZeroIsZero(t: EnumType)
    requires t.width > 0
    ensures ToInt(Zero(t.width), t.signed) == 0 && Defined(Zero(t.width))
  {
    ToIntFromInt(0, t.width, t.signed);
  }

  lemma SuccessorDefined(v: Vec)
    ensures Defined(Successor(v))
  {
  }

  lemma AcceptedDefined(v: Verinum, literalLen: Option<nat>, t: EnumType)
    requires t.width > 0 && Accepted(v, literalLen, t) && t.twoState
    ensures Defined(Sized(v, t.width))
  {
  }

  // ----- the elaborator -----

  /** netenum_t */
  class Netenum {
    const t: EnumType
    var names: seq<Option<string>>
    var namesMap: map<string, Vec>

    constructor (t: EnumType, nameCount: nat)
      ensures this.t == t && names == seq(nameCount, _ => None) && namesMap == map[]
    {
      this.t := t;
      names := seq(nameCount, _ => None);
      namesMap := map[];
    }

    /** The requirements are the assertions of the source. */
    method InsertName(nameIdx: nat, name: string, val: Vec) returns (unique: bool)
      requires |val| == t.width && nameIdx < |names| && names[nameIdx].None?
      modifies this
      ensures unique <==> name !in old(namesMap)
      ensures namesMap == if name in old(namesMap) then old(namesMap) else old(namesMap)[name := val]
      ensures names == old(names)[nameIdx := Some(name)]
    {
      unique := name !in namesMap;
      if unique { namesMap := namesMap[name := val]; }
      names := names[nameIdx := Some(name)];
    }

    method FindValue(val: Vec) returns (dup: Option<string>)
      ensures dup.Some? ==> dup.value in namesMap && namesMap[dup.value] == val
      ensures dup.None? ==> forall n :: n in namesMap ==> namesMap[n] != val
    {
      var rest := namesMap.Keys;
      while rest != {}
        invariant rest <= namesMap.Keys
        invariant forall n :: n in namesMap && n !in rest ==> namesMap[n] != val
        decreases |rest|
      {
        var n :| n in rest;
        if namesMap[n] == val { return Some(n); }
        rest := rest - {n};
      }
      dup := None;
    }
  }

  class EnumScope {
    var enumNames: set<string>

    method AddEnumerationName(name: string) returns (unique: bool)
      modifies this
      ensures unique <==> name !in old(enumNames)
      ensures enumNames == old(enumNames) + {name}
    {
      unique := name !in enumNames;
      enumNames := enumNames + {name};
    }
  }

  /** The check of the bits a wide value loses, as a loop. */
  method UpperBitsLoop(v: Vec, w: nat, signed: bool) returns (ok: bool)
    requires 0 < w < |v|
    ensures ok <==> UpperBitsMatch(v, w, signed)
  {
    var checkWidth := w - 1;
    var idx := w;
    while idx < |v|
      invariant w <= idx <= |v|
      invariant checkWidth == w - 1 || (checkWidth == w && w < idx && !signed && v[w] == V0 != v[w - 1])
      invariant forall i :: w <= i < idx ==> v[i] == v[checkWidth]
    {
      if v[idx] != v[checkWidth] {
        if !signed && idx == w && v[idx] == V0 {
          checkWidth := checkWidth + 1;
        } else {
          assert v[w] == v[checkWidth] || idx == w;
          return false;
        }
      }
      idx := idx + 1;
    }
    assert v[w] == v[checkWidth];
    ok := true;
  }

  /** The explicit branch: the errors it reports, the value at the width of the enumeration, and whether the
      rest of the names is given up. */
  method ExplicitValue(v: Verinum, literalLen: Option<nat>, t: EnumType) returns (errors: nat, value: Vec, stop: bool)
    requires t.width > 0
    ensures errors == 0 <==> Accepted(v, literalLen, t)
    ensures errors == 0 ==> !stop
    ensures !stop ==> value == Sized(v, t.width)
  {
    errors, stop := 0, false;
    if t.twoState && !Defined(v.bits) { errors := errors + 1; }
    if literalLen.Some? && literalLen.value != t.width { errors := errors + 1; }
    if (|v.bits| != t.width || !v.hasLen) && !t.signed && v.IsNegative() { errors := errors + 1; }
    value := v.bits;
    if |value| < t.width { value := PadToWidth(v, t.width); }
    if |value| > t.width {
      var ok := UpperBitsLoop(value, t.width, t.signed);
      if !ok { errors := errors + 1; }
      if !v.hasSign && value[t.width] == V1 {
        return errors + 1, value, true;
      }
      value := value[..t.width];
    }
  }

  /** The names done so far are in the map, with their values. */
  predicate Entered(items: seq<EnumItem>, k: nat, t: EnumType, namesMap: map<string, Vec>)
    requires k <= |items|
  {
    && (forall j :: 0 <= j < k ==> items[j].name in namesMap && namesMap[items[j].name] == ValueOf(items, j, t))
    && (forall n :: n in namesMap ==> exists j :: 0 <= j < k && items[j].name == n)
  }

  function NamesOf(items: seq<EnumItem>, k: nat): set<string>
    requires k <= |items|
  { set j | 0 <= j < k :: items[j].name }

  /** What the loop carries to the next name. */
  predicate Before(items: seq<EnumItem>, k: nat, t: EnumType, curValue: Vec, implicitWrapped: bool)
    requires k <= |items| && t.width > 0
  {
    if k == 0 then curValue == Zero(t.width) && !implicitWrapped
    else
      var prev := ValueOf(items, k - 1, t);
      if Defined(prev) then curValue == Successor(prev) && (implicitWrapped <==> AtMax(prev, t))
      else curValue == prev && !implicitWrapped
  }

  lemma LegalGrows(items: seq<EnumItem>, k: nat, t: EnumType, taken: set<string>)
    requires k < |items| && t.width > 0
    ensures Legal(items, k + 1, t, taken) <==> Legal(items, k, t, taken) && LegalItem(items, k, t, taken)
  {
  }

  lemma LegalShrinks(items: seq<EnumItem>, k: nat, t: EnumType, taken: set<string>)
    requires k <= |items| && t.width > 0
    ensures Legal(items, |items|, t, taken) ==> Legal(items, k, t, taken)
  {
  }

  lemma InferredOk(items: seq<EnumItem>, k: nat, t: EnumType, curValue: Vec, implicitWrapped: bool)
    requires k < |items| && t.width > 0 && items[k].init.Implicit? && Before(items, k, t, curValue, implicitWrapped)
    ensures InitOk(items, k, t) <==> Defined(curValue) && !implicitWrapped
    ensures Defined(curValue) ==> ValueOf(items, k, t) == curValue
  {
    hide AtMax;
    if k > 0 { SuccessorDefined(ValueOf(items, k - 1, t)); }
  }

  lemma EntryIsLegal(items: seq<EnumItem>, k: nat, t: EnumType, taken: set<string>, namesMap: map<string, Vec>)
    requires k < |items| && t.width > 0 && Entered(items, k, t, namesMap)
    ensures LegalItem(items, k, t, taken) <==>
      && InitOk(items, k, t) && (forall n :: n in namesMap ==> namesMap[n] != ValueOf(items, k, t))
      && items[k].name !in namesMap && items[k].name !in taken + NamesOf(items, k)
  {
    hide InitOk, ValueOf;
  }

  lemma EnteredGrows(items: seq<EnumItem>, k: nat, t: EnumType, namesMap: map<string, Vec>)
    requires k < |items| && Entered(items, k, t, namesMap) && items[k].name !in namesMap
    ensures Entered(items, k + 1, t, namesMap[items[k].name := ValueOf(items, k, t)])
    ensures NamesOf(items, k + 1) == NamesOf(items, k) + {items[k].name}
  {
    hide ValueOf;
    var m := namesMap[items[k].name := ValueOf(items, k, t)];
    forall n | n in m ensures exists j :: 0 <= j < k + 1 && items[j].name == n {
      if n in namesMap { var j :| 0 <= j < k && items[j].name == n; } else { assert items[k].name == n; }
    }
  }

  /** Everything the loop knows while there has been no error. */
  ghost predicate Clean(items: seq<EnumItem>, k: nat, t: EnumType, taken: set<string>, namesMap: map<string, Vec>,
                        enumNames: set<string>, curValue: Vec, implicitWrapped: bool)
    requires k <= |items| && t.width > 0
  {
    && Entered(items, k, t, namesMap) && enumNames == taken + NamesOf(items, k)
    && Before(items, k, t, curValue, implicitWrapped)
  }

  lemma CleanStart(items: seq<EnumItem>, t: EnumType, taken: set<string>)
    requires t.width > 0
    ensures Clean(items, 0, t, taken, map[], taken, Zero(t.width), false) && Legal(items, 0, t, taken)
  {
    assert NamesOf(items, 0) == {};
  }

  /** Enters a name whose value is known, and moves on to the next value. */
  method Enter(scope: EnumScope, use: Netenum, ghost items: seq<EnumItem>, k: nat, name: string, value: Vec,
               wrapped: bool, ghost taken: set<string>)
    returns (errors: nat, curValue: Vec, implicitWrapped: bool)
    requires use.t.width > 0 && k < |items| == |use.names| && use.names[k] == None && |value| == use.t.width
    requires items[k].name == name
    modifies scope, use
    ensures use.names == old(use.names)[k := Some(name)] && |curValue| == use.t.width
    ensures (old(Entered(items, k, use.t, use.namesMap) && scope.enumNames == taken + NamesOf(items, k))
             && value == ValueOf(items, k, use.t) && (InitOk(items, k, use.t) <==> !wrapped)) ==>
        && (errors == 0 <==> LegalItem(items, k, use.t, taken))
        && (errors == 0 ==> Clean(items, k + 1, use.t, taken, use.namesMap, scope.enumNames, curValue, implicitWrapped))
  {
    hide InitOk, ValueOf, LegalItem, AtMax, Successor;
    ghost var clean := Entered(items, k, use.t, use.namesMap) && scope.enumNames == taken + NamesOf(items, k)
      && value == ValueOf(items, k, use.t);
    if clean {
      EntryIsLegal(items, k, use.t, taken, use.namesMap);
      if name !in use.namesMap { EnteredGrows(items, k, use.t, use.namesMap); }
    }
    errors := 0;
    if wrapped { errors := errors + 1; }
    var dup := use.FindValue(value);
    if dup.Some? { errors := errors + 1; }
    var unique := use.InsertName(k, name, value);
    var added := scope.AddEnumerationName(name);
    if !unique || !added { errors := errors + 1; }
    curValue, implicitWrapped := value, wrapped;
    if Defined(curValue) {
      if AtMax(curValue, use.t) { implicitWrapped := true; }
      curValue := Successor(curValue);
    }
  }

  /** elaborate_scope_enumeration. Main result: it reports no error exactly when every name is legal. */
  method ElaborateScopeEnumeration(scope: EnumScope, use: Netenum, items: seq<EnumItem>) returns (errors: nat)
    requires use.t.width > 0 && use.namesMap == map[] && use.names == seq(|items|, _ => None)
    modifies scope, use
    ensures errors == 0 <==> Legal(items, |items|, use.t, old(scope.enumNames))
    ensures errors == 0 ==> Entered(items, |items|, use.t, use.namesMap)
    ensures AllImplicit(items) && FreshNames(items, old(scope.enumNames)) && !(use.t.signed && use.t.width == 1) ==>
      && (errors == 0 <==> |items| <= Pow2(if use.t.signed then use.t.width - 1 else use.t.width))
      && (errors == 0 ==> forall k :: 0 <= k < |items| ==>
            items[k].name in use.namesMap && use.namesMap[items[k].name] == FromInt(k, use.t.width))
  {
    hide Accepted, ValueOf, LegalItem, InitOk, Legal, AtMax, Successor, Sized, Clean, Zero;
    var t := use.t;
    ghost var taken := scope.enumNames;
    errors := 0;
    var nameIdx := 0;
    var curValue := Zero(t.width);
    var implicitWrapped := false;
    CleanStart(items, t, taken);
    assert |curValue| == t.width by { ZeroWidth(t.width); }
    while nameIdx < |items|
      invariant 0 <= nameIdx <= |items| == |use.names| && |curValue| == t.width
      invariant forall j :: nameIdx <= j < |items| ==> use.names[j] == None
      invariant errors == 0 <==> Legal(items, nameIdx, t, taken)
      invariant errors == 0 ==>
        Clean(items, nameIdx, t, taken, use.namesMap, scope.enumNames, curValue, implicitWrapped)
    {
      var cur := items[nameIdx];
      ghost var k := nameIdx;
      if errors == 0 { CleanAt(items, k, t, taken, use.namesMap, scope.enumNames, curValue, implicitWrapped); }
      LegalGrows(items, k, t, taken);
      LegalInit(items, k, t, taken);
      nameIdx := nameIdx + 1;
      if cur.init.NotConstant? {
        errors := errors + 1;
        continue;
      } else if cur.init.Explicit? {
        implicitWrapped := false;
        var found, value, stop := ExplicitValue(cur.init.value, cur.init.literalLen, t);
        errors := errors + found;
        if stop {
          LegalShrinks(items, k + 1, t, taken);
          break;
        }
        curValue := value;
      } else if !Defined(curValue) {
        errors := errors + 1;
        continue;
      }
      var found;
      found, curValue, implicitWrapped :=
        Enter(scope, use, items, nameIdx - 1, cur.name, curValue, implicitWrapped, taken);
      errors := errors + found;
    }
    if errors == 0 { CleanEntered(items, nameIdx, t, taken, use.namesMap, scope.enumNames, curValue, implicitWrapped); }
    if AllImplicit(items) && FreshNames(items, taken) && !(t.signed && t.width == 1) {
      CountingIsLegal(items, t, taken);
    }
  }

  lemma CleanEntered(items: seq<EnumItem>, k: nat, t: EnumType, taken: set<string>, namesMap: map<string, Vec>,
                     enumNames: set<string>, curValue: Vec, implicitWrapped: bool)
    requires k <= |items| && t.width > 0 && Clean(items, k, t, taken, namesMap, enumNames, curValue, implicitWrapped)
    ensures Entered(items, k, t, namesMap)
  {
  }

  lemma ZeroWidth(w: nat)
    ensures |Zero(w)| == w
  {
  }

  lemma LegalInit(items: seq<EnumItem>, k: nat, t: EnumType, taken: set<string>)
    requires k < |items| && t.width > 0
    ensures LegalItem(items, k, t, taken) ==> InitOk(items, k, t)
    ensures items[k].init.NotConstant? ==> !InitOk(items, k, t)
    ensures items[k].init.Explicit? ==>
      && (InitOk(items, k, t) <==> Accepted(items[k].init.value, items[k].init.literalLen, t))
      && ValueOf(items, k, t) == Sized(items[k].init.value, t.width)
  {
  }

  lemma CleanAt(items: seq<EnumItem>, k: nat, t: EnumType, taken: set<string>, namesMap: map<string, Vec>,
                enumNames: set<string>, curValue: Vec, implicitWrapped: bool)
    requires k < |items| && t.width > 0 && Clean(items, k, t, taken, namesMap, enumNames, curValue, implicitWrapped)
    ensures Entered(items, k, t, namesMap) && enumNames == taken + NamesOf(items, k)
    ensures items[k].init.Implicit? ==>
      && (InitOk(items, k, t) <==> Defined(curValue) && !implicitWrapped)
      && (Defined(curValue) ==> ValueOf(items, k, t) == curValue)
  {
    if items[k].init.Implicit? { InferredOk(items, k, t, curValue, implicitWrapped); }
  }
}
