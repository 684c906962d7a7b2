/** Assigning to a concatenation, through the linked list or through part selects, undoes reading it. */
module ConcatAssign {
  import opened Logic4
  import opened LValues

  type Store = map<nat, Vec>

  function Width(items: seq<Item>): nat { if |items| == 0 then 0 else items[0].wid + Width(items[1..]) }

  predicate InRange(store: Store, it: Item) { it.sig in store && it.base + it.wid <= |store[it.sig]| }

  predicate Overlap(x: Item, y: Item) { x.sig == y.sig && x.base < y.base + y.wid && y.base < x.base + x.wid }

  predicate Distinct(items: seq<Item>) { forall i, j :: 0 <= i < j < |items| ==> !Overlap(items[i], items[j]) }

  predicate AllInRange(store: Store, items: seq<Item>) { forall i :: 0 <= i < |items| ==> InRange(store, items[i]) }

  function Put(store: Store, it: Item, bits: Vec): Store
    requires InRange(store, it) && |bits| == it.wid
  {
    store[it.sig := store[it.sig][..it.base] + bits + store[it.sig][it.base + it.wid..]]
  }

  function Fetch(store: Store, it: Item): Vec
    requires InRange(store, it)
  { store[it.sig][it.base..it.base + it.wid] }

  // ----- through the linked list -----

  /** Each target in turn takes the next bits, starting with the least significant. */
  function AssignAll(store: Store, items: seq<Item>, v: Vec): (r: Store)
    requires AllInRange(store, items) && |v| == Width(items)
    ensures r.Keys == store.Keys && forall s :: s in store ==> |r[s]| == |store[s]|
    decreases |items|
  {
    if |items| == 0 then store
    else
      var store' := Put(store, items[0], v[..items[0].wid]);
      AssignAll(store', items[1..], v[items[0].wid..])
  }

  /** The value of the concatenation whose least significant operand is the first item. */
  function ReadAll(store: Store, items: seq<Item>): Vec
    requires AllInRange(store, items)
  {
    if |items| == 0 then [] else Fetch(store, items[0]) + ReadAll(store, items[1..])
  }

  /** Reading the target expression as an expression: the first operand is the most significant. */
  function ReadExpr(store: Store, e: LExpr): Vec
    decreases e, 1
  {
    match e
    case Select(item, _, _) => if InRange(store, item) then Fetch(store, item) else []
    case Concat(parms, _) => ReadParms(store, parms)
    case _ => []
  }

  function ReadParms(store: Store, parms: seq<LExpr>): Vec
    decreases parms, 0
  {
    if |parms| == 0 then [] else ReadParms(store, parms[1..]) + ReadExpr(store, parms[0])
  }

  lemma {:induction false} ReadSplit(store: Store, x: seq<Item>, y: seq<Item>)
    requires AllInRange(store, x + y)
    ensures AllInRange(store, x) && AllInRange(store, y)
    ensures ReadAll(store, x + y) == ReadAll(store, x) + ReadAll(store, y)
  {
    forall i | 0 <= i < |x| ensures InRange(store, x[i]) { assert (x + y)[i] == x[i]; }
    forall i | 0 <= i < |y| ensures InRange(store, y[i]) { assert (x + y)[|x| + i] == y[i]; }
    if |x| == 0 {
      assert x + y == y;
    } else {
      assert (x + y)[1..] == x[1..] + y;
      ReadSplit(store, x[1..], y);
    }
  }

  /** The flattening reads as the expression. */
  lemma {:induction false} ReadFlat(store: Store, e: LExpr)
    requires Proper(e) && AllInRange(store, Flatten(e))
    ensures ReadAll(store, Flatten(e)) == ReadExpr(store, e)
    decreases e, 1
  {
    match e {
      case Select(item, _, _) => assert Flatten(e)[0] == item;
      case Concat(parms, _) => ReadFlatParms(store, parms);
    }
  }

  lemma {:induction false} ReadFlatParms(store: Store, parms: seq<LExpr>)
    requires (forall p :: p in parms ==> !p.Skipped() && Proper(p)) && AllInRange(store, FlattenAll(parms))
    ensures ReadAll(store, FlattenAll(parms)) == ReadParms(store, parms)
    decreases parms, 0
  {
    if |parms| > 0 {
      ReadSplit(store, FlattenAll(parms[1..]), Flatten(parms[0]));
      ReadFlatParms(store, parms[1..]);
      ReadFlat(store, parms[0]);
    }
  }

  lemma PutElsewhere(store: Store, it: Item, bits: Vec, other: Item)
    requires InRange(store, it) && |bits| == it.wid && InRange(store, other) && !Overlap(it, other)
    ensures InRange(Put(store, it, bits), other) && Fetch(Put(store, it, bits), other) == Fetch(store, other)
  {
  }

  /** A later assignment leaves an item alone that overlaps none of its targets. */
  lemma {:induction false} AssignElsewhere(store: Store, items: seq<Item>, v: Vec, other: Item)
    requires AllInRange(store, items) && |v| == Width(items) && InRange(store, other)
    requires forall i :: 0 <= i < |items| ==> !Overlap(items[i], other)
    ensures InRange(AssignAll(store, items, v), other)
    ensures Fetch(AssignAll(store, items, v), other) == Fetch(store, other)
    decreases |items|
  {
    if |items| > 0 {
      PutElsewhere(store, items[0], v[..items[0].wid], other);
      AssignElsewhere(Put(store, items[0], v[..items[0].wid]), items[1..], v[items[0].wid..], other);
    }
  }

  /** Main result: assigning to distinct targets and reading them back returns the value. */
  lemma {:induction false} AssignThenRead(store: Store, items: seq<Item>, v: Vec)
    requires AllInRange(store, items) && |v| == Width(items) && Distinct(items)
    ensures AllInRange(AssignAll(store, items, v), items) && ReadAll(AssignAll(store, items, v), items) == v
    decreases |items|
  {
    if |items| > 0 {
      var it, low, high := items[0], v[..items[0].wid], v[items[0].wid..];
      var store' := Put(store, it, low);
      AssignThenRead(store', items[1..], high);
      forall i | 0 <= i < |items[1..]| ensures !Overlap(items[1..][i], it) { assert !Overlap(items[0], items[i + 1]); }
      AssignElsewhere(store', items[1..], high, it);
      assert Fetch(store', it) == low;
      assert v == low + high;
    }
  }

  /** The same, for the expression itself. */
  lemma AssignExprThenRead(store: Store, e: LExpr, v: Vec)
    requires Proper(e) && AllInRange(store, Flatten(e)) && |v| == Width(Flatten(e)) && Distinct(Flatten(e))
    ensures ReadExpr(AssignAll(store, Flatten(e), v), e) == v
  {
    AssignThenRead(store, Flatten(e), v);
    ReadFlat(AssignAll(store, Flatten(e), v), e);
  }

  /** How many bits the operands from the `j`-th on have. */
  function BitsFrom(store: Store, parms: seq<LExpr>, j: nat): nat
    decreases |parms| - j
  {
    if j >= |parms| then 0 else |ReadExpr(store, parms[j])| + BitsFrom(store, parms, j + 1)
  }

  lemma {:induction false} BitsOfTail(store: Store, parms: seq<LExpr>, j: nat)
    requires |parms| > 0
    ensures BitsFrom(store, parms, j + 1) == BitsFrom(store, parms[1..], j)
    decreases |parms| - j
  {
    if j + 1 < |parms| { BitsOfTail(store, parms, j + 1); }
  }

  lemma {:induction false} AllBits(store: Store, parms: seq<LExpr>)
    ensures |ReadParms(store, parms)| == BitsFrom(store, parms, 0)
    decreases |parms|
  {
    hide ReadExpr;
    if |parms| > 0 {
      AllBits(store, parms[1..]);
      BitsOfTail(store, parms, 0);
    }
  }

  /** Main result: the first operand of a target is the most significant: operand `j` stands above the bits of the
      operands after it. */
  lemma {:induction false} OperandAt(store: Store, parms: seq<LExpr>, j: nat)
    requires j < |parms|
    ensures BitsFrom(store, parms, j + 1) + |ReadExpr(store, parms[j])| <= |ReadParms(store, parms)|
    ensures ReadParms(store, parms)[BitsFrom(store, parms, j + 1)..][..|ReadExpr(store, parms[j])|]
         == ReadExpr(store, parms[j])
    decreases |parms|
  {
    hide ReadExpr;
    AllBits(store, parms[1..]);
    BitsOfTail(store, parms, j);
    if j == 0 {
      assert ReadParms(store, parms)[|ReadParms(store, parms[1..])|..] == ReadExpr(store, parms[0]);
    } else {
      BitsOfTail(store, parms, j - 1);
      OperandAt(store, parms[1..], j - 1);
      assert parms[1..][j - 1] == parms[j];
      CutOut(ReadParms(store, parms[1..]), ReadExpr(store, parms[0]), BitsFrom(store, parms, j + 1),
             |ReadExpr(store, parms[j])|);
    }
  }

  lemma CutOut(x: Vec, y: Vec, off: nat, n: nat)
    requires off + n <= |x|
    ensures (x + y)[off..][..n] == x[off..][..n]
  {
  }

  // ----- through part selects -----

  /** The net that stands for a structural target: one signal, or a local vector with a part select for each
      operand, from `offs[k]` on and as wide as the operand. */
  datatype Net = Leaf(item: Item) | Split(width: nat, offs: seq<nat>, nets: seq<Net>)

  function VectorWidth(n: Net): nat { if n.Leaf? then n.item.wid else n.width }

  function SumWidths(nets: seq<Net>): nat { if |nets| == 0 then 0 else VectorWidth(nets[0]) + SumWidths(nets[1..]) }

  /** From most to least significant, each part select ends where the one before starts, down to `low`. */
  predicate Tiles(offs: seq<nat>, nets: seq<Net>, width: nat, low: nat)
  {
    |offs| == |nets|
    && if |nets| == 0 then width == low
       else offs[0] + VectorWidth(nets[0]) == width && Tiles(offs[1..], nets[1..], offs[0], low)
  }

  predicate WellTiled(n: Net)
  {
    match n
    case Leaf(_) => true
    case Split(width, offs, nets) => Tiles(offs, nets, width, 0) && forall m :: m in nets ==> WellTiled(m)
  }

  /** What every leaf receives when `v` drives the net, most significant leaf first. */
  function Deliver(n: Net, v: Vec): seq<(Item, Vec)>
    requires WellTiled(n) && |v| == VectorWidth(n)
    decreases n, 1
  {
    match n
    case Leaf(item) => [(item, v)]
    case Split(width, offs, nets) => DeliverAll(offs, nets, v)
  }

  function DeliverAll(offs: seq<nat>, nets: seq<Net>, v: Vec): seq<(Item, Vec)>
    requires Tiles(offs, nets, |v|, 0) && forall m :: m in nets ==> WellTiled(m)
    decreases nets, 0
  {
    if |nets| == 0 then [] else Deliver(nets[0], v[offs[0]..]) + DeliverAll(offs[1..], nets[1..], v[..offs[0]])
  }

  /** What every target of the linked list receives, least significant first. */
  function Slices(items: seq<Item>, v: Vec): seq<(Item, Vec)>
    requires |v| == Width(items)
    decreases |items|
  {
    if |items| == 0 then [] else [(items[0], v[..items[0].wid])] + Slices(items[1..], v[items[0].wid..])
  }

  lemma {:induction false} SlicesCount(items: seq<Item>, v: Vec)
    requires |v| == Width(items)
    ensures |Slices(items, v)| == |items|
    decreases |items|
  {
    if |items| > 0 { SlicesCount(items[1..], v[items[0].wid..]); }
  }

  /** What a target receives is what it then holds. */
  lemma {:induction false} SliceIsAssigned(store: Store, items: seq<Item>, v: Vec, i: nat)
    requires AllInRange(store, items) && |v| == Width(items) && Distinct(items) && i < |items|
    ensures |Slices(items, v)| == |items| && InRange(AssignAll(store, items, v), items[i])
    ensures Slices(items, v)[i] == (items[i], Fetch(AssignAll(store, items, v), items[i]))
    decreases |items|
  {
    var it, low, high := items[0], v[..items[0].wid], v[items[0].wid..];
    var store' := Put(store, it, low);
    SlicesCount(items, v);
    if i == 0 {
      forall j | 0 <= j < |items[1..]| ensures !Overlap(items[1..][j], it) { assert !Overlap(items[0], items[j + 1]); }
      AssignElsewhere(store', items[1..], high, it);
      assert Fetch(store', it) == low;
    } else {
      SliceIsAssigned(store', items[1..], high, i - 1);
      assert items[1..][i - 1] == items[i];
    }
  }

  function Reverse<T>(s: seq<T>): seq<T> { if |s| == 0 then [] else Reverse(s[1..]) + [s[0]] }

  lemma {:induction false} ReverseSplit<T>(x: seq<T>, y: seq<T>)
    ensures Reverse(x + y) == Reverse(y) + Reverse(x)
  {
    if |x| == 0 {
      assert x + y == y;
    } else {
      assert (x + y)[1..] == x[1..] + y;
      ReverseSplit(x[1..], y);
    }
  }

  lemma {:induction false} WidthSplit(x: seq<Item>, y: seq<Item>)
    ensures Width(x + y) == Width(x) + Width(y)
  {
    if |x| == 0 {
      assert x + y == y;
    } else {
      assert (x + y)[1..] == x[1..] + y;
      WidthSplit(x[1..], y);
    }
  }

  lemma {:induction false} SlicesSplit(x: seq<Item>, y: seq<Item>, v: Vec)
    requires |v| == Width(x + y)
    ensures Width(x + y) == Width(x) + Width(y)
    ensures Slices(x + y, v) == Slices(x, v[..Width(x)]) + Slices(y, v[Width(x)..])
    decreases |x|
  {
    WidthSplit(x, y);
    if |x| == 0 {
      assert x + y == y && v[0..] == v;
    } else {
      var w := x[0].wid;
      assert (x + y)[1..] == x[1..] + y;
      SlicesSplit(x[1..], y, v[w..]);
      CutTwice(v, w, Width(x));
    }
  }

  lemma CutTwice(v: Vec, w: nat, n: nat)
    requires w <= n <= |v|
    ensures v[w..][..n - w] == v[..n][w..] && v[w..][n - w..] == v[n..] && v[..n][..w] == v[..w]
  {
  }

  /** The leaves of the net, least significant first. */
  function Leaves(n: Net): seq<Item>
    decreases n, 1
  { match n case Leaf(item) => [item] case Split(_, _, nets) => LeavesOf(nets) }

  function LeavesOf(nets: seq<Net>): seq<Item>
    decreases nets, 0
  { if |nets| == 0 then [] else LeavesOf(nets[1..]) + Leaves(nets[0]) }

  lemma {:induction false} LeavesWidth(n: Net)
    requires WellTiled(n)
    ensures Width(Leaves(n)) == VectorWidth(n)
    decreases n, 1
  {
    match n {
      case Leaf(_) =>
      case Split(width, offs, nets) => NetsWidth(offs, nets, width);
    }
  }

  lemma {:induction false} NetsWidth(offs: seq<nat>, nets: seq<Net>, width: nat)
    requires Tiles(offs, nets, width, 0) && forall m :: m in nets ==> WellTiled(m)
    ensures Width(LeavesOf(nets)) == width
    decreases nets, 0
  {
    if |nets| > 0 {
      NetsWidth(offs[1..], nets[1..], offs[0]);
      LeavesWidth(nets[0]);
      WidthSplit(LeavesOf(nets[1..]), Leaves(nets[0]));
    }
  }

  /** Main result: the part selects hand every leaf the bits that the linked list hands it. */
  lemma {:induction false} DeliverIsSlices(n: Net, v: Vec)
    requires WellTiled(n) && |v| == VectorWidth(n)
    ensures Width(Leaves(n)) == |v| && Reverse(Deliver(n, v)) == Slices(Leaves(n), v)
    decreases n, 1
  {
    LeavesWidth(n);
    match n {
      case Leaf(item) =>
        assert Reverse(Deliver(n, v)) == [(item, v)];
        assert v[..item.wid] == v;
      case Split(width, offs, nets) => DeliverAllIsSlices(offs, nets, v);
    }
  }

  lemma {:induction false} DeliverAllIsSlices(offs: seq<nat>, nets: seq<Net>, v: Vec)
    requires Tiles(offs, nets, |v|, 0) && forall m :: m in nets ==> WellTiled(m)
    ensures Width(LeavesOf(nets)) == |v| && Reverse(DeliverAll(offs, nets, v)) == Slices(LeavesOf(nets), v)
    decreases nets, 0
  {
    NetsWidth(offs, nets, |v|);
    if |nets| > 0 {
      NetsWidth(offs[1..], nets[1..], offs[0]);
      DeliverIsSlices(nets[0], v[offs[0]..]);
      DeliverAllIsSlices(offs[1..], nets[1..], v[..offs[0]]);
      ReverseSplit(Deliver(nets[0], v[offs[0]..]), DeliverAll(offs[1..], nets[1..], v[..offs[0]]));
      SlicesSplit(LeavesOf(nets[1..]), Leaves(nets[0]), v);
    }
  }

  // ----- building it -----

  /** Every operand of a structural target must elaborate, and there must be one. */
  predicate NetProper(e: LExpr)
  {
    match e
    case Select(_, _, isReal) => true
    case Concat(parms, repeat) => !repeat && |parms| > 0 && forall p :: p in parms ==> !p.Skipped() && NetProper(p)
    case _ => false
  }

  /** The last part of elaborate_lnet_common_: part selects from the most significant operand down. */
  method ConnectOperands(nets: seq<Net>, total: nat) returns (offs: seq<nat>)
    requires total == SumWidths(nets)
    ensures Tiles(offs, nets, total, 0)
  {
    offs := [];
    var width := total;
    var idx := 0;
    assert nets[0..] == nets;
    while idx < |nets|
      invariant 0 <= idx <= |nets| && width == SumWidths(nets[idx..])
      invariant Tiles(offs, nets[..idx], total, width)
    {
      assert nets[idx..][0] == nets[idx] && nets[idx..][1..] == nets[idx + 1..];
      assert nets[..idx + 1] == nets[..idx] + [nets[idx]];
      var wid := VectorWidth(nets[idx]);
      var off := width - wid;
      TilesSnoc(offs, nets[..idx], total, width, off, nets[idx]);
      offs := offs + [off];
      width := width - wid;
      idx := idx + 1;
    }
    assert nets[..idx] == nets;
    assert width == 0;
  }

  lemma {:induction false} TilesSnoc(offs: seq<nat>, nets: seq<Net>, width: nat, low: nat, off: nat, n: Net)
    requires Tiles(offs, nets, width, low) && off + VectorWidth(n) == low
    ensures Tiles(offs + [off], nets + [n], width, off)
    decreases |nets|
  {
    if |nets| == 0 {
      assert (nets + [n])[1..] == [] && (offs + [off])[1..] == [];
    } else {
      assert (nets + [n])[1..] == nets[1..] + [n] && (offs + [off])[1..] == offs[1..] + [off];
      TilesSnoc(offs[1..], nets[1..], offs[0], low, off, n);
    }
  }

  /** PEConcat::elaborate_lnet. Main result: it succeeds exactly when every operand does; the part selects then
      tile the vector, and its leaves are the targets of the linked list. */
  method ElaborateLnet(e: LExpr) returns (ok: bool, net: Net)
    ensures ok <==> NetProper(e)
    ensures ok ==> WellTiled(net) && Leaves(net) == Flatten(e)
    decreases e, 1
  {
    ok, net := false, Leaf(Item(0, 0, 0));
    match e
    case Bad =>
    case Empty =>
    case Select(item, _, _) => ok, net := true, Leaf(item);
    case Concat(parms, repeat) =>
      if repeat || |parms| == 0 { return; }
      var nets: seq<Net>, width: nat, errors: nat := ElaborateNets(parms, e);
      if errors > 0 { return; }
      var offs := ConnectOperands(nets, width);
      NetsAreFlat(parms, nets);
      ok, net := true, Split(width, offs, nets);
  }

  lemma {:induction false} NetsAreFlat(parms: seq<LExpr>, nets: seq<Net>)
    requires |nets| == |parms|
    requires forall i :: 0 <= i < |parms| ==> !parms[i].Skipped() && Leaves(nets[i]) == Flatten(parms[i])
    ensures LeavesOf(nets) == FlattenAll(parms)
    decreases |parms|
  {
    if |parms| > 0 { NetsAreFlat(parms[1..], nets[1..]); }
  }

  method ElaborateNets(parms: seq<LExpr>, ghost e: LExpr) returns (nets: seq<Net>, width: nat, errors: nat)
    requires forall p :: p in parms ==> p < e
    ensures errors == 0 <==> forall p :: p in parms ==> !p.Skipped() && NetProper(p)
    ensures errors == 0 ==> |nets| == |parms| && width == SumWidths(nets)
    ensures errors == 0 ==> forall i :: 0 <= i < |nets| ==> WellTiled(nets[i]) && Leaves(nets[i]) == Flatten(parms[i])
    decreases e, 0
  {
    hide NetProper, WellTiled, Flatten, Leaves, SumWidths;
    nets, width, errors := [], 0, 0;
    NoWidth();
    var idx := 0;
    while idx < |parms|
      invariant 0 <= idx <= |parms|
      invariant errors == 0 <==> forall p :: p in parms[..idx] ==> !p.Skipped() && NetProper(p)
      invariant errors == 0 ==> |nets| == idx && width == SumWidths(nets)
      invariant errors == 0 ==> forall i :: 0 <= i < |nets| ==>
        WellTiled(nets[i]) && Leaves(nets[i]) == Flatten(parms[i])
    {
      var p := parms[idx];
      assert p in parms;
      OneMore(parms, idx);
      idx := idx + 1;
      if p.Empty? { errors := errors + 1; continue; }
      var ok, net := ElaborateLnet(p);
      SkippedNets(p);
      if !ok {
        errors := errors + 1;
      } else if p.Select? && p.isReal {
        errors := errors + 1;
        continue;
      } else {
        SumSnoc(nets, net);
        width := width + VectorWidth(net);
      }
      nets := nets + [net];
    }
    assert parms[..idx] == parms;
  }

  /** No operand up to here is in error exactly when none before is, nor this one. */
  lemma OneMore(parms: seq<LExpr>, idx: nat)
    requires idx < |parms|
    ensures (forall p :: p in parms[..idx + 1] ==> !p.Skipped() && NetProper(p)) <==>
      (forall p :: p in parms[..idx] ==> !p.Skipped() && NetProper(p)) && !parms[idx].Skipped() && NetProper(parms[idx])
  {
    hide NetProper;
    assert parms[..idx + 1] == parms[..idx] + [parms[idx]];
  }

  lemma NoWidth()
    ensures SumWidths([]) == 0
  {
  }

  lemma SkippedNets(p: LExpr)
    ensures p.Skipped() && NetProper(p) <==> p.Select? && p.isReal
  {
  }

  lemma {:induction false} SumSnoc(nets: seq<Net>, n: Net)
    ensures SumWidths(nets + [n]) == SumWidths(nets) + VectorWidth(n)
  {
    if |nets| == 0 {
      assert (nets + [n])[1..] == [];
    } else {
      assert (nets + [n])[1..] == nets[1..] + [n];
      SumSnoc(nets[1..], n);
    }
  }
}
