/** Concatenations as expressions: their width test, and the node that is built from their operands. */
module ConcatExprs {
  import opened Logic4
  import opened VecOps
  import opened WidthTest
  import opened Coherence
  import opened Verinums

  // ----- the width test -----

  function ModesAfter(parms: seq<Expr>, modes: seq<Mode>): (r: seq<Mode>)
    requires |parms| == |modes|
    ensures |r| == |modes|
  { seq(|parms|, i requires 0 <= i < |parms| => TestWidth(parms[i], modes[i]).mode) }

  function SumTested(parms: seq<Expr>, modes: seq<Mode>): nat
    requires |parms| == |modes|
  {
    if |parms| == 0 then 0 else TestWidth(parms[0], modes[0]).width + SumTested(parms[1..], modes[1..])
  }

  class PEConcat {
    const parms: seq<Expr>
    const repeatCount: nat
    var widthModes: seq<Mode>
    var exprWidth: nat

    constructor (parms: seq<Expr>, repeatCount: nat)
      ensures this.parms == parms && this.repeatCount == repeatCount && widthModes == seq(|parms|, _ => SIZED)
    {
      this.parms, this.repeatCount := parms, repeatCount;
      widthModes, exprWidth := seq(|parms|, _ => SIZED), 0;
    }

    /** PEConcat::test_width: each operand keeps its own mode from one call to the next. */
    method Test() returns (width: nat)
      requires |widthModes| == |parms|
      modifies this
      ensures widthModes == ModesAfter(parms, old(widthModes))
      ensures width == exprWidth == SumTested(parms, old(widthModes)) * repeatCount
    {
      hide TestWidth, ModesAfter, SumTested;
      ghost var modes0 := widthModes;
      exprWidth := 0;
      var idx := 0;
      assert parms[0..] == parms && modes0[0..] == modes0;
      while idx < |parms|
        invariant 0 <= idx <= |parms| == |widthModes|
        invariant forall j :: 0 <= j < idx ==> widthModes[j] == TestWidth(parms[j], modes0[j]).mode
        invariant forall j :: idx <= j < |parms| ==> widthModes[j] == modes0[j]
        invariant exprWidth + SumTested(parms[idx..], modes0[idx..]) == SumTested(parms, modes0)
      {
        var t := TestWidth(parms[idx], widthModes[idx]);
        SumUnfold(parms, modes0, idx);
        widthModes := widthModes[idx := t.mode];
        exprWidth := exprWidth + t.width;
        idx := idx + 1;
      }
      SumEnd(parms, modes0);
      AllTested(parms, modes0, widthModes);
      exprWidth := exprWidth * repeatCount;
      width := exprWidth;
    }
  }

  lemma SumEnd(parms: seq<Expr>, modes: seq<Mode>)
    requires |parms| == |modes|
    ensures SumTested(parms[|parms|..], modes[|parms|..]) == 0
  {
  }

  lemma AllTested(parms: seq<Expr>, modes: seq<Mode>, after: seq<Mode>)
    requires |parms| == |modes| == |after|
    requires forall j :: 0 <= j < |parms| ==> after[j] == TestWidth(parms[j], modes[j]).mode
    ensures after == ModesAfter(parms, modes)
  {
    hide TestWidth;
  }

  lemma SumUnfold(parms: seq<Expr>, modes: seq<Mode>, idx: nat)
    requires |parms| == |modes| && idx < |parms|
    ensures SumTested(parms[idx..], modes[idx..]) ==
      TestWidth(parms[idx], modes[idx]).width + SumTested(parms[idx + 1..], modes[idx + 1..])
  {
    hide TestWidth;
    assert parms[idx..][1..] == parms[idx + 1..] && modes[idx..][1..] == modes[idx + 1..];
  }

  /** Main result: however often the width test runs, it returns the width of the first run, and the modes stay. */
  lemma {:induction false} RetestConcat(parms: seq<Expr>, modes: seq<Mode>)
    requires |parms| == |modes|
    ensures ModesAfter(parms, ModesAfter(parms, modes)) == ModesAfter(parms, modes)
    ensures SumTested(parms, ModesAfter(parms, modes)) == SumTested(parms, modes)
    decreases |parms|
  {
    hide TestWidth;
    var after := ModesAfter(parms, modes);
    forall i | 0 <= i < |parms| ensures ModesAfter(parms, after)[i] == after[i] { RetestIsStable(parms[i], modes[i]); }
    if |parms| > 0 {
      RetestIsStable(parms[0], modes[0]);
      RetestConcat(parms[1..], modes[1..]);
      assert ModesAfter(parms[1..], modes[1..]) == after[1..];
    }
  }

  // ----- the node -----

  /** An elaborated expression: a constant, a concatenation, one extended to a width, or something else with the
      value it has at some moment. The first part of a concatenation is the most significant. */
  datatype NetE =
    | Const(value: Vec)
    | Other(bits: Vec)
    | NetConcat(parts: seq<NetE>, repeat: nat)
    | Extended(net: NetE, width: nat)

  /** An operand: what its elaboration gives, or a concatenation of its own. `sized` tells whether its width
      test stayed in the SIZED mode. */
  datatype CExpr =
    | Missing
    | Fails
    | Real
    | Operand(net: NetE, sized: bool)
    | Replicate(parms: seq<CExpr>, repeat: nat)

  function Repeated(v: Vec, n: nat): (r: Vec)
    ensures |r| == n * |v|
  {
    if n == 0 then [] else
      assert n * |v| == (n - 1) * |v| + |v|;
      v + Repeated(v, n - 1)
  }

  lemma MultipleFar(d: int, w: nat)
    ensures d >= 1 ==> d * w >= w
    ensures d <= -1 ==> d * w <= -(w as int)
  {
    if d >= 1 { assert (d - 1) * w >= 0; }
    if d <= -1 { assert (-d - 1) * w >= 0; }
  }

  lemma UniqueModulo(x: nat, q: int, r: nat, w: nat)
    requires r < w && x == q * w + r
    ensures x % w == r
  {
    var d := q - x / w;
    assert d * w == q * w - (x / w) * w;
    MultipleFar(d, w);
  }

  lemma StepModulo(k: nat, w: nat)
    requires w > 0 && k >= w
    ensures k % w == (k - w) % w
  {
    var q, r := (k - w) / w, (k - w) % w;
    assert (q + 1) * w == q * w + w;
    UniqueModulo(k, q + 1, r, w);
  }

  lemma BothPositive(k: nat, n: nat, m: nat)
    requires k < n * m
    ensures n > 0 && m > 0
  {
  }

  lemma RepeatedFirst(v: Vec, n: nat)
    requires n > 0
    ensures Repeated(v, n) == v + Repeated(v, n - 1)
  {
  }

  /** Every bit of a replication is the bit at its place in the copy it belongs to. */
  lemma {:induction false} RepeatedAt(v: Vec, n: nat, k: nat)
    requires k < n * |v|
    ensures 0 < |v| && Repeated(v, n)[k] == v[k % |v|]
    decreases n
  {
    BothPositive(k, n, |v|);
    assert n * |v| == (n - 1) * |v| + |v|;
    RepeatedFirst(v, n);
    hide Repeated;
    if k >= |v| {
      RepeatedAt(v, n - 1, k - |v|);
      StepModulo(k, |v|);
    } else {
      UniqueModulo(k, 0, k, |v|);
    }
  }

  function ValueE(n: NetE): Vec
    decreases n, 1
  {
    match n
    case Const(v) => v
    case Other(v) => v
    case NetConcat(parts, repeat) => Repeated(JoinE(parts), repeat)
    case Extended(net, width) => Pad(ValueE(net), width, false)
  }

  function JoinE(parts: seq<NetE>): Vec
    decreases parts, 0
  { if |parts| == 0 then [] else JoinE(parts[1..]) + ValueE(parts[0]) }

  /** What the expression as written stands for. */
  function Meaning(e: CExpr): Vec
    decreases e, 1
  {
    match e
    case Operand(net, _) => ValueE(net)
    case Replicate(parms, repeat) => Repeated(JoinParms(parms), repeat)
    case _ => []
  }

  function JoinParms(parms: seq<CExpr>): Vec
    decreases parms, 0
  { if |parms| == 0 then [] else JoinParms(parms[1..]) + Meaning(parms[0]) }

  /** How many bits the operands from the `j`-th on have. */
  function BitsFrom(parms: seq<CExpr>, j: nat): nat
    decreases |parms| - j
  {
    if j >= |parms| then 0 else |Meaning(parms[j])| + BitsFrom(parms, j + 1)
  }

  lemma {:induction false} BitsOfTail(parms: seq<CExpr>, j: nat)
    requires |parms| > 0
    ensures BitsFrom(parms, j + 1) == BitsFrom(parms[1..], j)
    decreases |parms| - j
  {
    if j + 1 < |parms| { BitsOfTail(parms, j + 1); }
  }

  /** Main result: the first operand is the most significant: operand `j` stands above the bits of the operands
      after it. */
  lemma {:induction false} OperandAt(parms: seq<CExpr>, j: nat)
    requires j < |parms|
    ensures |JoinParms(parms)| == BitsFrom(parms, 0)
    ensures BitsFrom(parms, j + 1) + |Meaning(parms[j])| <= |JoinParms(parms)|
    ensures JoinParms(parms)[BitsFrom(parms, j + 1)..][..|Meaning(parms[j])|] == Meaning(parms[j])
    decreases |parms|
  {
    hide Meaning;
    AllBits(parms);
    AllBits(parms[1..]);
    BitsOfTail(parms, j);
    if j == 0 {
      assert JoinParms(parms)[|JoinParms(parms[1..])|..] == Meaning(parms[0]);
    } else {
      BitsOfTail(parms, j - 1);
      OperandAt(parms[1..], j - 1);
      assert parms[1..][j - 1] == parms[j];
      CutOut(JoinParms(parms[1..]), Meaning(parms[0]), BitsFrom(parms, j + 1), |Meaning(parms[j])|);
    }
  }

  lemma {:induction false} AllBits(parms: seq<CExpr>)
    ensures |JoinParms(parms)| == BitsFrom(parms, 0)
    decreases |parms|
  {
    hide Meaning;
    if |parms| > 0 {
      AllBits(parms[1..]);
      BitsOfTail(parms, 0);
    }
  }

  lemma CutOut(x: Vec, y: Vec, off: nat, n: nat)
    requires off + n <= |x|
    ensures (x + y)[off..][..n] == x[off..][..n]
  {
  }

  /** No error, at this nesting depth of concatenations: a zero repeat count needs an enclosing concatenation. */
  predicate Sound(e: CExpr, depth: nat)
  {
    match e
    case Operand(_, _) => true
    case Replicate(parms, repeat) =>
      && (repeat > 0 || depth > 0)
      && (forall p :: p in parms ==> Sound(p, depth + 1) && (p.Operand? ==> p.sized))
      && |JoinParms(parms)| > 0
    case _ => false
  }

  function Somes(parms: seq<Option<NetE>>): seq<NetE>
  {
    if |parms| == 0 then []
    else Somes(parms[..|parms| - 1]) + (if parms[|parms| - 1].Some? then [parms[|parms| - 1].value] else [])
  }

  lemma {:induction false} SomesSplit(x: seq<Option<NetE>>, y: seq<Option<NetE>>)
    ensures Somes(x + y) == Somes(x) + Somes(y)
    decreases |y|
  {
    if |y| == 0 {
      assert x + y == x;
    } else {
      assert (x + y)[..|x + y| - 1] == x + y[..|y| - 1];
      SomesSplit(x, y[..|y| - 1]);
    }
  }

  lemma SomesAt(parms: seq<Option<NetE>>, k: nat)
    requires k < |parms|
    ensures Somes(parms[k..]) == (if parms[k].Some? then [parms[k].value] else []) + Somes(parms[k + 1..])
    ensures Somes(parms[..k + 1]) == Somes(parms[..k]) + if parms[k].Some? then [parms[k].value] else []
  {
    assert parms[k..] == [parms[k]] + parms[k + 1..];
    SomesSplit([parms[k]], parms[k + 1..]);
    assert Somes([parms[k]]) == Somes([]) + if parms[k].Some? then [parms[k].value] else [];
    assert parms[..k + 1][..k] == parms[..k];
  }

  /** The loop that removes the operands left out. Main result: it stays in bounds, and keeps the others in order. */
  method Compact(parms: seq<Option<NetE>>, parmCnt: nat) returns (set_: seq<NetE>)
    requires parmCnt == |Somes(parms)|
    ensures set_ == Somes(parms)
  {
    hide Somes;
    set_ := [];
    var off, idx := 0, 0;
    assert parms[0..] == parms;
    NoSomes();
    while idx < parmCnt
      invariant 0 <= idx <= parmCnt && 0 <= off && off + idx <= |parms| && |set_| == idx
      invariant set_ + Somes(parms[off + idx..]) == Somes(parms)
    {
      SomesNonEmpty(parms[off + idx..]);
      while parms[off + idx] == None
        invariant 0 <= off && off + idx < |parms|
        invariant set_ + Somes(parms[off + idx..]) == Somes(parms)
        decreases |parms| - off
      {
        SomesAt(parms, off + idx);
        SomesNonEmpty(parms[off + idx + 1..]);
        off := off + 1;
      }
      SomesAt(parms, off + idx);
      set_ := set_ + [parms[off + idx].value];
      idx := idx + 1;
    }
    assert Somes(parms[off + idx..]) == [];
  }

  lemma NoSomes()
    ensures Somes([]) == []
  {
  }

  lemma SomesNonEmpty(parms: seq<Option<NetE>>)
    ensures |Somes(parms)| > 0 ==> |parms| > 0
  {
  }

  /** eval_expr on a concatenation: it becomes a constant when all its parts are. */
  function Evaluated(n: NetE): (r: NetE)
    ensures ValueE(r) == ValueE(n)
  {
    if n.NetConcat? && forall p :: p in n.parts ==> p.Const? then Const(ValueE(n)) else n
  }

  /** A constant without bits, which a concatenation leaves out. */
  predicate HasNoBits(n: NetE) { n.Const? && |n.value| == 0 }

  predicate NoneEmpty(parts: seq<NetE>) { forall i :: 0 <= i < |parts| ==> !HasNoBits(parts[i]) }

  /** Leaving out what has no bits does not change the value. */
  lemma {:induction false} JoinSnoc(parts: seq<NetE>, n: NetE)
    ensures JoinE(parts + [n]) == ValueE(n) + JoinE(parts)
    decreases |parts|
  {
    if |parts| == 0 {
      assert (parts + [n])[1..] == [];
    } else {
      assert (parts + [n])[1..] == parts[1..] + [n];
      JoinSnoc(parts[1..], n);
    }
  }

  lemma {:induction false} JoinParmsSnoc(parms: seq<CExpr>, p: CExpr)
    ensures JoinParms(parms + [p]) == Meaning(p) + JoinParms(parms)
    decreases |parms|
  {
    if |parms| == 0 {
      assert (parms + [p])[1..] == [];
    } else {
      assert (parms + [p])[1..] == parms[1..] + [p];
      JoinParmsSnoc(parms[1..], p);
    }
  }

  predicate NoEmptyParts(n: NetE)
  {
    (n.NetConcat? && NoneEmpty(n.parts)) || (n.Extended? && n.net.NetConcat? && NoneEmpty(n.net.parts))
  }

  /** pad_to_width on a concatenation, which is unsigned: only a narrower one is extended. */
  method ToWidth(concat: NetE, wid: nat) returns (r: NetE)
    requires concat.NetConcat?
    ensures ValueE(r) == Pad(ValueE(concat), wid, false)
    ensures r == if wid <= |ValueE(concat)| then concat else Extended(concat, wid)
  {
    r := if wid <= |ValueE(concat)| then concat else Extended(concat, wid);
  }

  class Elaborator {
    var concatDepth: nat
    var errors: nat

    constructor ()
      ensures concatDepth == 0 && errors == 0
    {
      concatDepth, errors := 0, 0;
    }

    method ElaborateOperand(e: CExpr) returns (ex: Option<NetE>)
      modifies this
      ensures concatDepth == old(concatDepth) && errors >= old(errors)
      ensures errors == old(errors) ==> Sound(e, concatDepth) || e.Real?
      ensures Sound(e, concatDepth) ==> errors == old(errors) && ex.Some? && ValueE(ex.value) == Meaning(e)
      decreases e, 3
    {
      match e
      case Missing => ex, errors := None, errors + 1;
      case Fails => ex, errors := None, errors + 1;
      case Real => ex := None;
      case Operand(net, _) => ex := Some(net);
      case Replicate(parms, repeat) => ex := ElaborateConcat(e, |Meaning(e)|);
    }

    /** PEConcat::elaborate_expr. Main result: there is no new error exactly when the expression is sound, and
        then bit `k` of the node is bit `k` of the joined operands, over and over for each repetition, and zero up
        to the context width. The operands that have no bits are left out. */
    method ElaborateConcat(e: CExpr, exprWid: nat) returns (r: Option<NetE>)
      requires e.Replicate?
      modifies this
      ensures concatDepth == old(concatDepth) && errors >= old(errors)
      ensures errors == old(errors) <==> Sound(e, concatDepth)
      ensures errors == old(errors) ==> r.Some? && ValueE(r.value) == Pad(Meaning(e), exprWid, false)
      ensures errors == old(errors) ==>
        var operands := JoinParms(e.parms);
        && |operands| > 0 && |ValueE(r.value)| == Max(exprWid, e.repeat * |operands|)
        && forall k :: 0 <= k < |ValueE(r.value)| ==>
             ValueE(r.value)[k] == if k < e.repeat * |operands| then operands[k % |operands|] else V0
      ensures r.Some? ==> NoEmptyParts(r.value)
      decreases e, 2
    {
      hide Pad, Repeated;
      concatDepth := concatDepth + 1;
      if e.repeat == 0 && concatDepth < 2 {
        errors := errors + 1;
        concatDepth := concatDepth - 1;
        return None;
      }
      ghost var before := errors;
      var parms, parmCnt, widSum, parmErrors := ElaborateParms(e.parms, e);
      if parmErrors > 0 {
        concatDepth := concatDepth - 1;
        return None;
      }
      var parts := Compact(parms, parmCnt);
      var concat := NetConcat(parts, e.repeat);
      if widSum == 0 {
        errors := errors + 1;
        concatDepth := concatDepth - 1;
        return None;
      }
      var tmp := ToWidth(concat, exprWid);
      r := Some(tmp);
      assert errors == before ==> |JoinParms(e.parms)| > 0;
      if errors == before { ReplicationBits(JoinParms(e.parms), e.repeat, exprWid); }
      concatDepth := concatDepth - 1;
    }

    method ElaborateParms(list: seq<CExpr>, ghost e: CExpr)
      returns (parms: seq<Option<NetE>>, parmCnt: nat, widSum: nat, parmErrors: nat)
      requires forall p :: p in list ==> p < e
      modifies this
      ensures concatDepth == old(concatDepth) && errors >= old(errors) + parmErrors
      ensures errors == old(errors) <==> forall p :: p in list ==> Sound(p, concatDepth) && (p.Operand? ==> p.sized)
      ensures parmErrors == 0 ==> parmCnt == |Somes(parms)| && NoneEmpty(Somes(parms))
      ensures errors == old(errors) ==> widSum == |JoinParms(list)| && JoinE(Somes(parms)) == JoinParms(list)
      decreases e, 1
    {
      hide Sound, ValueE, JoinE, Meaning, JoinParms, Somes;
      parms, parmCnt, widSum, parmErrors := seq(|list|, _ => None), 0, 0, 0;
      var idx := 0;
      AllNone(parms);
      NoParms();
      while idx < |list|
        invariant 0 <= idx <= |list| == |parms| && concatDepth == old(concatDepth)
        invariant errors >= old(errors) + parmErrors
        invariant errors == old(errors) <==>
          forall p :: p in list[..idx] ==> Sound(p, concatDepth) && (p.Operand? ==> p.sized)
        invariant forall j :: idx <= j < |parms| ==> parms[j] == None
        invariant parmErrors == 0 ==> parmCnt == |Somes(parms[..idx])| && NoneEmpty(Somes(parms[..idx]))
        invariant errors == old(errors) ==>
          widSum == |JoinParms(list[..idx])| && JoinE(Somes(parms[..idx])) == JoinParms(list[..idx])
      {
        var p := list[idx];
        assert p in list;
        assert list[..idx + 1] == list[..idx] + [p];
        JoinParmsSnoc(list[..idx], p);
        ghost var before := parms;
        var ex := ElaborateOperand(p);
        OneOperand(p, concatDepth);
        idx := idx + 1;
        if p.Real? {
          errors := errors + 1;
          parmErrors := parmErrors + 1;
          SomesAt(parms, idx - 1);
          continue;
        }
        if ex == None {
          SomesAt(parms, idx - 1);
          continue;
        }
        var n := Evaluated(ex.value);
        if p.Operand? && !p.sized {
          errors := errors + 1;
          parmErrors := parmErrors + 1;
          continue;
        }
        if !HasNoBits(n) {
          parms := parms[idx - 1 := Some(n)];
          parmCnt := parmCnt + 1;
        }
        widSum := widSum + |ValueE(n)|;
        assert parms[..idx - 1] == before[..idx - 1];
        SomesAt(parms, idx - 1);
        Appended(Somes(parms[..idx - 1]), n);
        assert [] + JoinParms(list[..idx - 1]) == JoinParms(list[..idx - 1]);
        assert Somes(parms[..idx - 1]) + [] == Somes(parms[..idx - 1]);
      }
      assert list[..idx] == list && parms[..idx] == parms;
    }
  }

  lemma ReplicationBits(v: Vec, n: nat, w: nat)
    requires |v| > 0
    ensures |Pad(Repeated(v, n), w, false)| == Max(w, n * |v|)
    ensures forall k :: 0 <= k < Max(w, n * |v|) ==>
      Pad(Repeated(v, n), w, false)[k] == if k < n * |v| then v[k % |v|] else V0
  {
    hide Repeated;
    forall k | 0 <= k < n * |v| ensures Repeated(v, n)[k] == v[k % |v|] { RepeatedAt(v, n, k); }
  }

  lemma Appended(parts: seq<NetE>, n: NetE)
    ensures JoinE(parts + [n]) == ValueE(n) + JoinE(parts)
    ensures HasNoBits(n) ==> ValueE(n) == []
  {
    JoinSnoc(parts, n);
  }

  lemma OneOperand(p: CExpr, depth: nat)
    ensures p.Missing? || p.Fails? || p.Real? ==> !Sound(p, depth)
    ensures p.Operand? ==> Sound(p, depth)
  {
  }

  lemma NoParms()
    ensures JoinParms([]) == [] && JoinE([]) == [] && Somes([]) == []
  {
  }

  lemma {:induction false} AllNone(parms: seq<Option<NetE>>)
    requires forall j :: 0 <= j < |parms| ==> parms[j] == None
    ensures Somes(parms) == []
    decreases |parms|
  {
    if |parms| > 0 { AllNone(parms[..|parms| - 1]); }
  }
}
