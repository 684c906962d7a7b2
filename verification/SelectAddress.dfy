/** From declared indices to bit positions: the canonical address of a packed vector, and the several pieces of
    code that turn `[b +: w]` and `[b -: w]` with a constant base into a base position. */
module SelectAddress {

  datatype Range = Range(msb: int, lsb: int)
  {
    function Width(): (w: nat)
      ensures w > 0
    { if msb >= lsb then msb - lsb + 1 else lsb - msb + 1 }

    predicate Ascending() { msb < lsb }

    predicate Declares(i: int) { if msb >= lsb then lsb <= i <= msb else msb <= i <= lsb }

    /** Position of a declared index within the dimension. */
    function Offset(i: int): int { if msb >= lsb then i - lsb else lsb - i }
  }

  // ----- canonical addresses -----

  function Total(dims: seq<Range>): (n: nat)
    ensures n > 0
  { if |dims| == 0 then 1 else Multiply(dims[0].Width(), Total(dims[1..])) }

  function Multiply(a: nat, b: nat): (r: nat)
    ensures a > 0 && b > 0 ==> r > 0
  { a * b }

  /** Row-major: the first dimension varies slowest. */
  function Canonical(dims: seq<Range>, indices: seq<int>): int
    requires |dims| == |indices|
  {
    if |dims| == 0 then 0
    else dims[0].Offset(indices[0]) * Total(dims[1..]) + Canonical(dims[1..], indices[1..])
  }

  predicate Declared(dims: seq<Range>, indices: seq<int>)
  {
    |dims| == |indices| && forall k :: 0 <= k < |dims| ==> dims[k].Declares(indices[k])
  }

  lemma Distribute(o: int, k: int, total: nat)
    ensures (o + k + 1) * total == o * total + k * total + total
  {
  }

  lemma RowBound(o: int, n: nat, inner: int, total: nat)
    requires 0 <= o < n && 0 <= inner < total
    ensures 0 <= o * total + inner < n * total
  {
    var k := n - 1 - o;
    MultipleFar(o, total);
    MultipleFar(k, total);
    Distribute(o, k, total);
  }

  /** Main result: every declared element has a position inside the vector. */
  lemma {:induction false} CanonicalInside(dims: seq<Range>, indices: seq<int>)
    requires Declared(dims, indices)
    ensures 0 <= Canonical(dims, indices) < Total(dims)
  {
    if |dims| > 0 {
      assert Declared(dims[1..], indices[1..]);
      CanonicalInside(dims[1..], indices[1..]);
      RowBound(dims[0].Offset(indices[0]), dims[0].Width(), Canonical(dims[1..], indices[1..]), Total(dims[1..]));
    }
  }

  lemma SameRow(o: int, o': int, inner: int, inner': int, total: nat)
    requires 0 <= inner < total && 0 <= inner' < total && o * total + inner == o' * total + inner'
    ensures o == o' && inner == inner'
  {
    var q := o' - o;
    assert q * total == o' * total - o * total;
    MultipleFar(q, total);
  }

  lemma MultipleFar(q: int, total: nat)
    ensures q >= 1 ==> q * total >= total
    ensures q <= -1 ==> q * total <= -(total as int)
  {
    if q >= 1 { assert (q - 1) * total >= 0; }
    if q <= -1 { assert (-q - 1) * total >= 0; }
  }

  /** Main result: different declared elements have different positions. */
  lemma {:induction false} CanonicalInjective(dims: seq<Range>, x: seq<int>, y: seq<int>)
    requires Declared(dims, x) && Declared(dims, y) && Canonical(dims, x) == Canonical(dims, y)
    ensures x == y
  {
    if |dims| > 0 {
      assert Declared(dims[1..], x[1..]) && Declared(dims[1..], y[1..]);
      CanonicalInside(dims[1..], x[1..]);
      CanonicalInside(dims[1..], y[1..]);
      SameRow(dims[0].Offset(x[0]), dims[0].Offset(y[0]),
              Canonical(dims[1..], x[1..]), Canonical(dims[1..], y[1..]), Total(dims[1..]));
      CanonicalInjective(dims[1..], x[1..], y[1..]);
      assert x == [x[0]] + x[1..] && y == [y[0]] + y[1..];
    }
  }

  // ----- the row-major law -----

  /** How many elements the dimensions from the `k`-th on have. */
  function Size(dims: seq<Range>, k: nat): nat
    decreases |dims| - k
  {
    if k >= |dims| then 1
    else
      var r := dims[k];
      Multiply(1 + (if r.msb >= r.lsb then r.msb - r.lsb else r.lsb - r.msb), Size(dims, k + 1))
  }

  lemma {:induction false} SizeOfTail(dims: seq<Range>, k: nat)
    requires |dims| > 0
    ensures Size(dims, k + 1) == Size(dims[1..], k)
    decreases |dims| - k
  {
    if k + 1 < |dims| { SizeOfTail(dims, k + 1); }
  }

  lemma {:induction false} TotalIsSize(dims: seq<Range>)
    ensures Total(dims) == Size(dims, 0)
  {
    if |dims| > 0 {
      TotalIsSize(dims[1..]);
      SizeOfTail(dims, 0);
    }
  }

  /** Main result: moving index `k` by one towards its left bound moves the position up by the size of one element
      of that dimension. */
  lemma {:induction false} RowMajorStep(dims: seq<Range>, indices: seq<int>, k: nat)
    requires |dims| == |indices| && k < |dims|
    ensures Canonical(dims, indices[k := if dims[k].msb >= dims[k].lsb then indices[k] + 1 else indices[k] - 1])
         == Canonical(dims, indices) + Size(dims, k + 1)
  {
    var moved := if dims[k].msb >= dims[k].lsb then indices[k] + 1 else indices[k] - 1;
    if k == 0 {
      assert indices[0 := moved][1..] == indices[1..];
      TotalIsSize(dims[1..]);
      SizeOfTail(dims, 0);
      Distribute(dims[0].Offset(indices[0]), 0, Total(dims[1..]));
    } else {
      assert indices[k := moved][1..] == indices[1..][k - 1 := moved];
      RowMajorStep(dims[1..], indices[1..], k - 1);
      SizeOfTail(dims, k);
    }
  }

  function RightBounds(dims: seq<Range>): (r: seq<int>)
    ensures |r| == |dims|
  { seq(|dims|, k requires 0 <= k < |dims| => dims[k].lsb) }

  /** The element with every index at its right bound is at position 0. */
  lemma {:induction false} OriginIsZero(dims: seq<Range>)
    ensures Canonical(dims, RightBounds(dims)) == 0
  {
    if |dims| > 0 {
      assert RightBounds(dims)[1..] == RightBounds(dims[1..]);
      OriginIsZero(dims[1..]);
      assert 0 * Total(dims[1..]) == 0;
    }
  }

  /** NetNet::sb_to_idx: from the innermost dimension outwards. */
  method SbToIdx(dims: seq<Range>, prefix: seq<int>, sb: int) returns (accOff: int)
    requires |prefix| + 1 == |dims|
    ensures accOff == Canonical(dims, prefix + [sb])
  {
    ghost var all := prefix + [sb];
    var p := |dims| - 1;
    var accWid := dims[p].Width();
    accOff := if dims[p].msb >= dims[p].lsb then sb - dims[p].lsb else dims[p].lsb - sb;
    InnerDimension(dims, all);
    while p > 0
      invariant 0 <= p < |dims|
      invariant accOff == Canonical(dims[p..], all[p..]) && accWid == Total(dims[p..])
    {
      p := p - 1;
      var tmpOff := if dims[p].msb >= dims[p].lsb then prefix[p] - dims[p].lsb else dims[p].lsb - prefix[p];
      assert all[p..][0] == prefix[p] && all[p..][1..] == all[p + 1..] && dims[p..][1..] == dims[p + 1..];
      accOff := accOff + tmpOff * accWid;
      accWid := Multiply(dims[p].Width(), accWid);
    }
    assert dims[0..] == dims && all[0..] == all;
  }

  lemma InnerDimension(dims: seq<Range>, all: seq<int>)
    requires |all| == |dims| > 0
    ensures Total(dims[|dims| - 1..]) == dims[|dims| - 1].Width()
    ensures Canonical(dims[|dims| - 1..], all[|dims| - 1..]) == dims[|dims| - 1].Offset(all[|dims| - 1])
  {
    assert dims[|dims| - 1..][1..] == [];
  }

  /** Position of index `s` of the last dimension, under the given prefix. */
  function At(dims: seq<Range>, prefix: seq<int>, s: int): int
    requires |prefix| + 1 == |dims|
  { Canonical(dims, prefix + [s]) }

  function Last(dims: seq<Range>): Range
    requires |dims| > 0
  { dims[|dims| - 1] }

  /** One step of the last index is one position, up or down with the direction of the range. */
  lemma {:induction false} AtStep(dims: seq<Range>, prefix: seq<int>, s: int, t: int)
    requires |prefix| + 1 == |dims|
    ensures At(dims, prefix, t) == At(dims, prefix, s) + (if Last(dims).Ascending() then s - t else t - s)
  {
    if |prefix| == 0 {
      assert prefix + [s] == [s] && prefix + [t] == [t];
      OneDimension(dims, s);
      OneDimension(dims, t);
    } else {
      assert (prefix + [s])[1..] == prefix[1..] + [s] && (prefix + [t])[1..] == prefix[1..] + [t];
      AtStep(dims[1..], prefix[1..], s, t);
      assert Last(dims[1..]) == Last(dims);
    }
  }

  lemma OneDimension(dims: seq<Range>, s: int)
    requires |dims| == 1
    ensures Canonical(dims, [s]) == dims[0].Offset(s)
  {
    assert dims[1..] == [] && [s][1..] == [];
    assert Total([]) == 1 && Canonical([], []) == 0;
    assert dims[0].Offset(s) * 1 == dims[0].Offset(s);
  }

  // ----- indexed part selects with a constant base -----

  /** Index `s` is one of those `[lsv +: wid]` or `[lsv -: wid]` names. */
  predicate Names(up: bool, lsv: int, wid: nat, s: int)
  {
    if up then lsv <= s < lsv + wid else lsv - wid < s <= lsv
  }

  predicate InSpan(base: int, wid: nat, i: int) { base <= i < base + wid }

  /** Positions `base` to `base + wid - 1` are exactly those of the named indices. */
  ghost predicate Covers(dims: seq<Range>, prefix: seq<int>, up: bool, lsv: int, wid: nat, base: int)
    requires |prefix| + 1 == |dims|
  {
    && (forall s :: Names(up, lsv, wid, s) ==> base <= At(dims, prefix, s) < base + wid)
    && (forall i :: InSpan(base, wid, i) ==> exists s :: Names(up, lsv, wid, s) && At(dims, prefix, s) == i)
  }

  /** The position of the lowest of them. */
  function LowBase(dims: seq<Range>, prefix: seq<int>, up: bool, lsv: int, wid: nat): int
    requires |prefix| + 1 == |dims| && wid > 0
  {
    At(dims, prefix, lsv) - if Last(dims).Ascending() == up then wid - 1 else 0
  }

  /** Only that base covers the named indices. */
  lemma CoversOnlyLowBase(dims: seq<Range>, prefix: seq<int>, up: bool, lsv: int, wid: nat, base: int)
    requires |prefix| + 1 == |dims| && wid > 0
    ensures Covers(dims, prefix, up, lsv, wid, base) <==> base == LowBase(dims, prefix, up, lsv, wid)
  {
    var low := LowBase(dims, prefix, up, lsv, wid);
    forall s
      ensures At(dims, prefix, s) == At(dims, prefix, lsv) + if Last(dims).Ascending() then lsv - s else s - lsv
    {
      AtStep(dims, prefix, lsv, s);
    }
    if base == low {
      forall i | InSpan(base, wid, i) ensures exists s :: Names(up, lsv, wid, s) && At(dims, prefix, s) == i {
        var s := if Last(dims).Ascending() then lsv - (i - At(dims, prefix, lsv))
          else lsv + (i - At(dims, prefix, lsv));
        assert Names(up, lsv, wid, s) && At(dims, prefix, s) == i;
      }
    } else if Covers(dims, prefix, up, lsv, wid, base) {
      var other := if up then lsv + wid - 1 else lsv - wid + 1;
      assert Names(up, lsv, wid, lsv) && Names(up, lsv, wid, other);
      assert false;
    }
  }

  /** PEIdent::elaborate_lval_net_idx_, with a defined constant base: skip the select, or select from `base`. */
  method LvalBase(dims: seq<Range>, prefix: seq<int>, up: bool, lsv: int, wid: nat) returns (skip: bool, base: int)
    requires |prefix| + 1 == |dims| && wid > 0
    ensures Covers(dims, prefix, up, lsv, wid, base) <==> !(Last(dims).msb == Last(dims).lsb && !up && wid > 1)
    ensures Last(dims).msb == Last(dims).lsb && !up ==> base == At(dims, prefix, lsv)
    ensures skip <==> base == 0 && wid == Total(dims)
  {
    hide Covers;
    var offset := 0;
    var rng := dims[|dims| - 1];
    if (rng.msb < rng.lsb && up) || (rng.msb > rng.lsb && !up) {
      offset := 1 - wid;
    }
    base := SbToIdx(dims, prefix, lsv);
    base := base + offset;
    CoversOnlyLowBase(dims, prefix, up, lsv, wid, base);
    skip := base == 0 && wid == Total(dims);
  }

  /** PEIdent::eval_part_select_, the indexed selects with a defined constant base. */
  method EvalPartSelect(dims: seq<Range>, prefix: seq<int>, up: bool, lsv: int, wid: nat)
    returns (ok: bool, midx: int, lidx: int)
    requires |prefix| + 1 == |dims| && wid > 0
    ensures Covers(dims, prefix, up, lsv, wid, lidx) && midx == lidx + wid - 1
    ensures ok <==> exists i :: InSpan(lidx, wid, i) && InSpan(0, Total(dims), i)
  {
    hide Covers;
    midx := SbToIdx(dims, prefix, lsv);
    if up {
      lidx := SbToIdx(dims, prefix, lsv + wid - 1);
      AtStep(dims, prefix, lsv, lsv + wid - 1);
    } else {
      lidx := SbToIdx(dims, prefix, lsv - wid + 1);
      AtStep(dims, prefix, lsv, lsv - wid + 1);
    }
    if midx < lidx {
      var tmpx := midx;
      midx := lidx;
      lidx := tmpx;
    }
    CoversOnlyLowBase(dims, prefix, up, lsv, wid, lidx);
    if lidx >= Total(dims) || midx < 0 {
      return false, midx, lidx;
    }
    assert InSpan(lidx, wid, if lidx < 0 then 0 else lidx);
    ok := true;
  }

  /** The r-value forms: the whole signal, a part of it, or an assertion of the source that fails. */
  datatype Rvalue = Whole | Part(base: int) | Asserts
  {
    /** The lowest position the form reads. */
    function Low(): int { if Part? then base else 0 }
  }

  /** PEIdent::elaborate_expr_net_idx_up_, with a defined constant base. */
  method RvalUp(dims: seq<Range>, prefix: seq<int>, lsv: int, wid: nat) returns (r: Rvalue)
    requires |prefix| + 1 == |dims| && wid > 0
    ensures r.Whole? || r.Part?
    ensures r.Whole? <==> At(dims, prefix, lsv) == 0 && wid == Total(dims)
    ensures Covers(dims, prefix, true, lsv, wid, r.Low()) <==> !(r.Whole? && Last(dims).Ascending() && wid > 1)
  {
    hide Covers;
    var offset := 0;
    var rng := dims[|dims| - 1];
    if rng.msb < rng.lsb { offset := 1 - wid; }
    var relBase := SbToIdx(dims, prefix, lsv);
    r := if relBase == 0 && wid == Total(dims) then Whole else Part(relBase + offset);
    CoversOnlyLowBase(dims, prefix, true, lsv, wid, r.Low());
  }

  /** PEIdent::elaborate_expr_net_idx_do_, with a defined constant base. The direction of the range is only
      looked up for signals of one dimension. */
  method RvalDown(dims: seq<Range>, prefix: seq<int>, lsv: int, wid: nat) returns (r: Rvalue)
    requires |prefix| + 1 == |dims| && wid > 0
    ensures r.Whole? <==> At(dims, prefix, lsv) == wid - 1 && wid == Total(dims)
    ensures r.Asserts? <==> !r.Whole? && |dims| > 1
    ensures !r.Asserts? ==>
      (Covers(dims, prefix, false, lsv, wid, r.Low()) <==>
         !(wid > 1 && (if r.Whole? then Last(dims).Ascending() else Last(dims).msb == Last(dims).lsb)))
  {
    hide Covers;
    var idx := SbToIdx(dims, prefix, lsv);
    if idx == wid - 1 && wid == Total(dims) {
      CoversOnlyLowBase(dims, prefix, false, lsv, wid, 0);
      return Whole;
    }
    if |dims| != 1 { return Asserts; }
    var offset := 0;
    if dims[0].msb > dims[0].lsb { offset := 1 - wid; }
    r := Part(idx + offset);
    CoversOnlyLowBase(dims, prefix, false, lsv, wid, r.Low());
  }

  /** Main result: two bases that cover the named indices are the same, so the procedural and the structural
      target agree whenever the procedural one covers them. */
  lemma CoverIsUnique(dims: seq<Range>, prefix: seq<int>, up: bool, lsv: int, wid: nat, base: int, lidx: int)
    requires |prefix| + 1 == |dims| && wid > 0 && Covers(dims, prefix, up, lsv, wid, lidx)
    ensures Covers(dims, prefix, up, lsv, wid, base) <==> base == lidx
  {
    hide Covers;
    CoversOnlyLowBase(dims, prefix, up, lsv, wid, lidx);
    CoversOnlyLowBase(dims, prefix, up, lsv, wid, base);
  }

  /** Skipping the select of a target is right: the named indices are then all positions of the vector. */
  lemma SkipSelectsAll(dims: seq<Range>, prefix: seq<int>, up: bool, lsv: int, wid: nat, i: int)
    requires |prefix| + 1 == |dims| && wid > 0 && wid == Total(dims) && Covers(dims, prefix, up, lsv, wid, 0)
    ensures 0 <= i < Total(dims) <==> exists s :: Names(up, lsv, wid, s) && At(dims, prefix, s) == i
  {
    assert InSpan(0, wid, i) <==> 0 <= i < Total(dims);
  }

  lemma AtOf(r: Range, s: int)
    ensures At([r], [], s) == r.Offset(s)
  {
    assert [] + [s] == [s];
    OneDimension([r], s);
  }

  lemma TotalOf(r: Range)
    ensures Total([r]) == r.Width()
  {
    assert [r][1..] == [];
  }

  /** The r-value shortcut is not: on `[0:7]`, `[7 +: 8]` names one bit of the vector, and the code reads all. */
  lemma RvalShortcutReadsWrongBits()
    ensures At([Range(0, 7)], [], 7) == 0 && Total([Range(0, 7)]) == 8
    ensures !Covers([Range(0, 7)], [], true, 7, 8, 0)
  {
    AtOf(Range(0, 7), 7);
    TotalOf(Range(0, 7));
    CoversOnlyLowBase([Range(0, 7)], [], true, 7, 8, 0);
  }

  /** Nor is the downward one: on `[0:7]`, `[0 -: 8]` names one bit of the vector, and the code reads all. */
  lemma RvalDownShortcutReadsWrongBits()
    ensures At([Range(0, 7)], [], 0) == 7 && Total([Range(0, 7)]) == 8
    ensures !Covers([Range(0, 7)], [], false, 0, 8, 0)
  {
    AtOf(Range(0, 7), 0);
    TotalOf(Range(0, 7));
    CoversOnlyLowBase([Range(0, 7)], [], false, 0, 8, 0);
  }

  /** On `[0:0]`, `[0 -: 2]` names positions -1 and 0; the base of a target, and that of an r-value, is 0. */
  lemma OneElementDownIsOff()
    ensures At([Range(0, 0)], [], 0) == 0 && Total([Range(0, 0)]) == 1
    ensures Covers([Range(0, 0)], [], false, 0, 2, -1) && !Covers([Range(0, 0)], [], false, 0, 2, 0)
  {
    AtOf(Range(0, 0), 0);
    TotalOf(Range(0, 0));
    CoversOnlyLowBase([Range(0, 0)], [], false, 0, 2, -1);
    CoversOnlyLowBase([Range(0, 0)], [], false, 0, 2, 0);
  }
}
