/** The rewrites of constant propagation keep every consistent valuation. */
module CpropRewrites {
  import opened Logic4
  import opened Netlists
  import opened Rewrites
  import opened Constants

  // ----- both directions at once -----

  /** The replacement drives the same bits in every consistent valuation of either netlist. */
  ghost predicate SameDriveBothWays(a: Netlist, b: Netlist, gone: set<NodeId>, added: map<NodeId, Node>, q: NexusId,
                                    w: World)
    requires q in a.nexus
  {
    && (forall v :: Consistent(a, w, v) ==> SameDrive(a, gone, added, q, w, v, Lift(b, v)))
    && (forall v' :: Consistent(b, w, v') ==> SameDrive(a, gone, added, q, w, Restrict(a, v'), v'))
  }

  lemma SwapPreserves(a: Netlist, b: Netlist, gone: set<NodeId>, added: map<NodeId, Node>, new_: set<NexusId>,
                      q: NexusId, w: World)
    requires Swapped(a, b, gone, added, new_, q) && SameDriveBothWays(a, b, gone, added, q, w)
    ensures Preserves(w, a, b)
  {
    hide Consistent, SameDrive, Swapped, Carried, Traced, Extends;
    SwapExtends(a, b, gone, added, new_, q);
    forall v | Consistent(a, w, v) ensures Carried(w, a, b, v) {
      SwapCarried(a, b, gone, added, new_, q, w, v);
    }
    forall v' | Consistent(b, w, v') ensures Traced(w, a, b, v') {
      SwapTraced(a, b, gone, added, new_, q, w, v');
    }
  }

  lemma SwapSameBut(a: Netlist, b: Netlist, gone: set<NodeId>, added: map<NodeId, Node>, new_: set<NexusId>, q: NexusId)
    requires Swapped(a, b, gone, added, new_, q)
    ensures SameBut(a, b, q) && SameBut(a, a, q)
  {
    hide Swapped, SamePins;
    forall n | n in a.nexus && n != q ensures SamePins(a, b, n) && SamePins(a, a, n) {
      PinsElsewhere(a, b, gone, added, new_, q, n);
      PinsSame(a, n);
    }
  }

  // ----- a concatenation of constants becomes a constant -----

  function JoinDriven(a: Netlist, order: seq<NodeId>, parts: seq<NexusId>, fuel: nat): Vec
  {
    if |parts| == 0 then [] else DrivenVector(a, order, parts[0], fuel) + JoinDriven(a, order, parts[1..], fuel)
  }

  lemma {:induction false} ConstantJoin(a: Netlist, b: Netlist, order: seq<NodeId>, q: NexusId, w: World, v: Valuation,
                                        parts: seq<NexusId>, fuel: nat)
    requires WellFormed(a) && Lists(a, order) && Opaque(a, q) && SameBut(a, b, q) && Consistent(b, w, v)
    requires forall p :: p in parts ==> DriversConstant(a, order, p, fuel) && AsDriven(a, w, order, p, fuel)
    ensures Join(v, parts) == JoinDriven(a, order, parts, fuel)
  {
    hide Consistent, WellFormed, DriversConstant, DrivenVector, CarriedVector, Opaque, SameBut, Lists;
    if |parts| > 0 {
      ConstantMeaning(a, b, order, q, w, v, parts[0], fuel);
      ConstantJoin(a, b, order, q, w, v, parts[1..], fuel);
    }
  }

  lemma FoldConcatPreserves(a: Netlist, b: Netlist, order: seq<NodeId>, id: NodeId, id': NodeId, fuel: nat, w: World)
    requires WellFormed(a) && Lists(a, order) && id in a.nodes && a.nodes[id].Concat? && id' !in a.nodes
    requires forall p :: p in a.nodes[id].parts ==> DriversConstant(a, order, p, fuel) && AsDriven(a, w, order, p, fuel)
    requires b.nexus == a.nexus
    requires b.nodes ==
      (a.nodes - {id}) + map[id' := Const(JoinDriven(a, order, a.nodes[id].parts, fuel), a.nodes[id].q)]
    ensures Preserves(w, a, b)
  {
    hide Consistent, Preserves, DriversConstant, DrivenVector, AsDriven, WellFormed, Lists;
    var node := a.nodes[id];
    var q, parts := node.q, node.parts;
    var result := Const(JoinDriven(a, order, parts, fuel), q);
    var added := map[id' := result];
    assert NodeFits(a, node) by { AllFit(a, id); }
    assert Swapped(a, b, {id}, added, {}, q);
    assert Opaque(a, q) by { assert q in node.Outputs(); }
    SwapSameBut(a, b, {id}, added, {}, q);
    forall v | Consistent(a, w, v) ensures SameDrive(a, {id}, added, q, w, v, Lift(b, v)) {
      ConstantJoin(a, a, order, q, w, v, parts, fuel);
      ConstDrive(a, id, added, id', w, v, Lift(b, v));
    }
    forall v' | Consistent(b, w, v') ensures SameDrive(a, {id}, added, q, w, Restrict(a, v'), v') {
      ConstantJoin(a, b, order, q, w, v', parts, fuel);
      RestrictJoin(a, v', parts);
      ConstDrive(a, id, added, id', w, Restrict(a, v'), v');
    }
    SwapPreserves(a, b, {id}, added, {}, q, w);
  }

  lemma AllFit(a: Netlist, id: NodeId)
    requires WellFormed(a) && id in a.nodes
    ensures NodeFits(a, a.nodes[id])
  {
  }

  lemma {:induction false} RestrictJoin(a: Netlist, v': Valuation, parts: seq<NexusId>)
    requires forall p :: p in parts ==> p in a.nexus
    ensures Join(Restrict(a, v'), parts) == Join(v', parts)
  {
    if |parts| > 0 { RestrictJoin(a, v', parts[1..]); }
  }

  lemma ConstDrive(a: Netlist, id: NodeId, added: map<NodeId, Node>, id': NodeId, w: World, v: Valuation, v': Valuation)
    requires id in a.nodes && a.nodes[id].Concat? && a.nodes[id].q in a.nexus
    requires added == map[id' := Const(Join(v, a.nodes[id].parts), a.nodes[id].q)]
    ensures SameDrive(a, {id}, added, a.nodes[id].q, w, v, v')
  {
    forall i: nat, bit: V
      ensures GoneDrives(a, {id}, w, v, i, bit) <==> AddedDrives(added, a.nodes[id].q, w, v', i, bit)
    {
      assert DriverBit(w, v, id, a.nodes[id], 0, i) == DriverBit(w, v', id', added[id'], 0, i);
      assert id in {id} && id' in added;
    }
  }

  // ----- a multiplexer with a constant select becomes a buffer -----

  lemma FoldMuxPreserves(a: Netlist, b: Netlist, order: seq<NodeId>, id: NodeId, id': NodeId, fuel: nat, w: World)
    requires WellFormed(a) && Lists(a, order) && id in a.nodes && a.nodes[id].Mux? && id' !in a.nodes
    requires |a.nodes[id].data| == 2 && a.nodes[id].selWidth == 1
    requires DriversConstant(a, order, a.nodes[id].sel, fuel) && IsDefinedBit(DrivenValue(a, order, a.nodes[id].sel))
    requires AsDriven(a, w, order, a.nodes[id].sel, fuel)
    requires b.nexus == a.nexus
    requires var d := a.nodes[id].data[if DrivenValue(a, order, a.nodes[id].sel) == V1 then 1 else 0];
      b.nodes == (a.nodes - {id}) + map[id' := Bufz(a.nodes[id].width, a.nodes[id].q, d)]
    ensures Preserves(w, a, b)
  {
    hide Consistent, Preserves, DriversConstant, DrivenVector, DrivenValue, AsDriven, WellFormed, Lists;
    var node := a.nodes[id];
    var q, sel := node.q, node.sel;
    var k := if DrivenValue(a, order, sel) == V1 then 1 else 0;
    var added := map[id' := Bufz(node.width, q, node.data[k])];
    assert NodeFits(a, node) by { AllFit(a, id); }
    MuxInput(node, k);
    assert Swapped(a, b, {id}, added, {}, q);
    assert Opaque(a, q) by { assert q in node.Outputs(); }
    SwapSameBut(a, b, {id}, added, {}, q);
    forall v | Consistent(a, w, v) ensures SameDrive(a, {id}, added, q, w, v, Lift(b, v)) {
      SelectValue(a, a, order, q, w, v, sel, fuel);
      assert v.Keys == a.nexus.Keys by { ConsistentKeys(a, w, v); }
      BufferDrive(a, id, added, id', k, w, v, Lift(b, v));
    }
    forall v' | Consistent(b, w, v') ensures SameDrive(a, {id}, added, q, w, Restrict(a, v'), v') {
      SelectValue(a, b, order, q, w, v', sel, fuel);
      assert v'.Keys == b.nexus.Keys by { ConsistentKeys(b, w, v'); }
      BufferDrive(a, id, added, id', k, w, Restrict(a, v'), v');
    }
    SwapPreserves(a, b, {id}, added, {}, q, w);
  }

  lemma MuxInput(node: Node, k: nat)
    requires node.Mux? && k < |node.data|
    ensures node.data[k] in node.data && node.data[k] in node.Inputs() && node.sel in node.Inputs()
  {
  }

  /** The select value the rewrite reads is the bit the select nexus carries. */
  lemma SelectValue(a: Netlist, b: Netlist, order: seq<NodeId>, q: NexusId, w: World, v: Valuation, sel: NexusId,
                    fuel: nat)
    requires WellFormed(a) && Lists(a, order) && Opaque(a, q) && SameBut(a, b, q) && Consistent(b, w, v)
    requires DriversConstant(a, order, sel, fuel) && IsDefinedBit(DrivenValue(a, order, sel))
    requires AsDriven(a, w, order, sel, fuel)
    requires sel in a.nexus && a.nexus[sel].width == 1
    ensures Get(v, sel) == [DrivenValue(a, order, sel)]
  {
    hide Consistent, WellFormed, Lists, Opaque, SameBut, CarriedVector;
    ConstantMeaning(a, b, order, q, w, v, sel, fuel);
    ConstantWidth(a, w, order, sel, fuel);
  }

  lemma BufferDrive(a: Netlist, id: NodeId, added: map<NodeId, Node>, id': NodeId, k: nat, w: World, v: Valuation,
                    v': Valuation)
    requires id in a.nodes && a.nodes[id].Mux? && a.nodes[id].q in a.nexus && k < |a.nodes[id].data| == 2
    requires added == map[id' := Bufz(a.nodes[id].width, a.nodes[id].q, a.nodes[id].data[k])]
    requires Get(v, a.nodes[id].sel) == [if k == 1 then V1 else V0]
    requires Get(v, a.nodes[id].data[k]) == Get(v', a.nodes[id].data[k])
    ensures SameDrive(a, {id}, added, a.nodes[id].q, w, v, v')
  {
    forall i: nat, bit: V
      ensures GoneDrives(a, {id}, w, v, i, bit) <==> AddedDrives(added, a.nodes[id].q, w, v', i, bit)
    {
      assert ToNat(Get(v, a.nodes[id].sel)) == k;
      assert DriverBit(w, v, id, a.nodes[id], 0, i) == DriverBit(w, v', id', added[id'], 0, i);
      assert id in {id} && id' in added;
    }
  }

  // ----- part selects into a vector become one concatenation -----

  /** Some part covers bit `i`: the bit it drives. */
  function Pick(parts: seq<Node>, v: Valuation, i: nat): V
  {
    if |parts| == 0 then Vz
    else if parts[0].PartPV? && parts[0].base <= i < parts[0].base + parts[0].wid
    then BitAt(Get(v, parts[0].part), i - parts[0].base)
    else Pick(parts[1..], v, i)
  }

  predicate AllParts(parts: seq<Node>) { forall j :: 0 <= j < |parts| ==> parts[j].PartPV? && parts[j].wid > 0 }

  /** Each part ends before the next one begins. */
  predicate Stacked(parts: seq<Node>)
    requires AllParts(parts)
  {
    forall j :: 1 <= j < |parts| ==> parts[j - 1].base + parts[j - 1].wid <= parts[j].base
  }

  predicate Overlap(x: Node, y: Node)
    requires x.PartPV? && y.PartPV?
  {
    x.base < y.base + y.wid && y.base < x.base + x.wid
  }

  predicate Sorted(parts: seq<Node>)
    requires AllParts(parts)
  {
    forall j, k :: 0 <= j < k < |parts| ==> parts[j].base <= parts[k].base
  }

  predicate Disjoint(parts: seq<Node>)
    requires AllParts(parts)
  {
    forall j, k :: 0 <= j < k < |parts| ==> !Overlap(parts[j], parts[k])
  }

  lemma {:induction false} StackedFar(parts: seq<Node>, j: nat, k: nat)
    requires AllParts(parts) && Stacked(parts) && j < k < |parts|
    ensures parts[j].base + parts[j].wid <= parts[k].base
    decreases k
  {
    if j < k - 1 { StackedFar(parts, j, k - 1); }
  }

  /** Main result: once sorted, looking at neighbours only decides whether any two parts overlap. */
  lemma StackedIsDisjoint(parts: seq<Node>)
    requires AllParts(parts) && Sorted(parts)
    ensures Stacked(parts) <==> Disjoint(parts)
  {
    if Stacked(parts) {
      forall j, k | 0 <= j < k < |parts| ensures !Overlap(parts[j], parts[k]) { StackedFar(parts, j, k); }
    }
    if Disjoint(parts) {
      forall j | 1 <= j < |parts| ensures parts[j - 1].base + parts[j - 1].wid <= parts[j].base {
        assert !Overlap(parts[j - 1], parts[j]);
      }
    }
  }

  /** What drives bit `i` when the parts are disjoint: the part that covers it, if any. */
  lemma {:induction false} PickIsDriver(parts: seq<Node>, v: Valuation, w: World, id: NodeId, i: nat, bit: V)
    requires AllParts(parts) && Stacked(parts) && bit != Vz
    ensures Pick(parts, v, i) == bit <==>
      exists j :: 0 <= j < |parts| && DriverBit(w, v, id, parts[j], 0, i) == bit
  {
    if |parts| > 0 {
      PickIsDriver(parts[1..], v, w, id, i, bit);
      assert forall j :: 1 <= j < |parts| ==> parts[j] == parts[1..][j - 1];
      if parts[0].base <= i < parts[0].base + parts[0].wid {
        forall j | 1 <= j < |parts| ensures DriverBit(w, v, id, parts[j], 0, i) == Vz { StackedFar(parts, 0, j); }
      } else if Pick(parts, v, i) == bit {
        var j :| 0 <= j < |parts[1..]| && DriverBit(w, v, id, parts[1..][j], 0, i) == bit;
        assert DriverBit(w, v, id, parts[j + 1], 0, i) == bit;
      }
    }
  }

  /** The inputs of the concatenation: the parts, with high-impedance nexuses `z`, `z + 1`, ... in the gaps. */
  function Layout(parts: seq<Node>, off: nat, width: nat, z: NexusId): seq<NexusId>
  {
    if |parts| == 0 then (if off < width then [z] else [])
    else if !parts[0].PartPV? then []
    else if parts[0].base > off then [z, parts[0].part] + Layout(parts[1..], parts[0].base + parts[0].wid, width, z + 1)
    else [parts[0].part] + Layout(parts[1..], off + parts[0].wid, width, z)
  }

  /** The gap each of those nexuses fills. */
  function Gaps(parts: seq<Node>, off: nat, width: nat): seq<nat>
  {
    if |parts| == 0 then (if off < width then [width - off] else [])
    else if !parts[0].PartPV? then []
    else if parts[0].base > off then [parts[0].base - off] + Gaps(parts[1..], parts[0].base + parts[0].wid, width)
    else Gaps(parts[1..], off + parts[0].wid, width)
  }

  /** The parts start at or after `off` and stay inside the target. */
  predicate Within(parts: seq<Node>, off: nat, width: nat)
    requires AllParts(parts)
  {
    if |parts| == 0 then off <= width
    else off <= parts[0].base && parts[|parts| - 1].base + parts[|parts| - 1].wid <= width
  }

  /** The nexuses from `z` on carry z over the gaps, the part nexuses have their width. */
  predicate Carries(parts: seq<Node>, off: nat, width: nat, z: NexusId, v: Valuation)
  {
    && (forall j :: 0 <= j < |parts| ==> parts[j].PartPV? && |Get(v, parts[j].part)| == parts[j].wid)
    && (forall j :: 0 <= j < |Gaps(parts, off, width)| ==> Get(v, z + j) == Fill(Vz, Gaps(parts, off, width)[j]))
  }

  lemma TailCarries(parts: seq<Node>, off: nat, width: nat, z: NexusId, v: Valuation)
    requires AllParts(parts) && |parts| > 0 && Carries(parts, off, width, z, v)
    ensures parts[0].base > off ==>
      Get(v, z) == Fill(Vz, parts[0].base - off) && Carries(parts[1..], parts[0].base + parts[0].wid, width, z + 1, v)
    ensures parts[0].base <= off ==> Carries(parts[1..], off + parts[0].wid, width, z, v)
  {
    var gaps := Gaps(parts, off, width);
    if parts[0].base > off {
      var rest := Gaps(parts[1..], parts[0].base + parts[0].wid, width);
      assert gaps == [parts[0].base - off] + rest;
      assert Get(v, z + 0) == Fill(Vz, gaps[0]);
      forall j | 0 <= j < |rest| ensures Get(v, z + 1 + j) == Fill(Vz, rest[j]) {
        assert gaps[j + 1] == rest[j];
        assert Get(v, z + (j + 1)) == Fill(Vz, gaps[j + 1]);
      }
    }
  }

  lemma LayoutHead(parts: seq<Node>, off: nat, width: nat, z: NexusId, v: Valuation)
    requires AllParts(parts) && |parts| > 0 && off <= parts[0].base && Carries(parts, off, width, z, v)
    ensures var zt := if parts[0].base > off then z + 1 else z;
      var end := parts[0].base + parts[0].wid;
      && Carries(parts[1..], end, width, zt, v)
      && Join(v, Layout(parts, off, width, z)) ==
           Fill(Vz, parts[0].base - off) + Get(v, parts[0].part) + Join(v, Layout(parts[1..], end, width, zt))
  {
    hide Carries;
    TailCarries(parts, off, width, z, v);
    var p := parts[0];
    var zt := if p.base > off then z + 1 else z;
    var rest := Layout(parts[1..], p.base + p.wid, width, zt);
    if p.base > off {
      assert Layout(parts, off, width, z) == [z] + [p.part] + rest;
      JoinHead(v, [z], p.part, rest);
    } else {
      assert Layout(parts, off, width, z) == [] + [p.part] + rest;
      JoinHead(v, [], p.part, rest);
      assert Fill(Vz, 0) == [];
    }
  }

  lemma BitOfThree(x: Vec, y: Vec, rest: Vec, i: nat)
    ensures BitAt(x + y + rest, i) ==
      if i < |x| then x[i] else if i < |x| + |y| then y[i - |x|] else BitAt(rest, i - |x| - |y|)
  {
  }

  /** Main result: the concatenation tiles the target, and each bit is its part's bit or z. */
  lemma {:induction false} LayoutTiles(parts: seq<Node>, off: nat, width: nat, z: NexusId, v: Valuation)
    requires AllParts(parts) && Stacked(parts) && Within(parts, off, width) && Carries(parts, off, width, z, v)
    ensures |Join(v, Layout(parts, off, width, z))| == width - off
    ensures forall i: nat :: off <= i < width ==>
      BitAt(Join(v, Layout(parts, off, width, z)), i - off) == Pick(parts, v, i)
    decreases |parts|
  {
    if |parts| == 0 {
      if off < width {
        assert Get(v, z + 0) == Fill(Vz, Gaps(parts, off, width)[0]);
        assert Join(v, [z]) == Get(v, z) + Join(v, []);
      }
    } else {
      hide Layout, Gaps;
      LayoutHead(parts, off, width, z, v);
      TailTiles(parts, off, width, z, v);
    }
  }

  lemma PartWidth(parts: seq<Node>, off: nat, width: nat, z: NexusId, v: Valuation)
    requires |parts| > 0 && Carries(parts, off, width, z, v)
    ensures parts[0].PartPV? && |Get(v, parts[0].part)| == parts[0].wid
  {
  }

  lemma {:induction false} TailTiles(parts: seq<Node>, off: nat, width: nat, z: NexusId, v: Valuation)
    requires AllParts(parts) && Stacked(parts) && Within(parts, off, width) && |parts| > 0
    requires Carries(parts, off, width, z, v)
    requires var zt := if parts[0].base > off then z + 1 else z;
      var end := parts[0].base + parts[0].wid;
      && Carries(parts[1..], end, width, zt, v)
      && Join(v, Layout(parts, off, width, z)) ==
           Fill(Vz, parts[0].base - off) + Get(v, parts[0].part) + Join(v, Layout(parts[1..], end, width, zt))
    ensures |Join(v, Layout(parts, off, width, z))| == width - off
    ensures forall i: nat :: off <= i < width ==>
      BitAt(Join(v, Layout(parts, off, width, z)), i - off) == Pick(parts, v, i)
    decreases |parts|, 0
  {
    hide Carries, Layout, Join;
    var p, tail := parts[0], parts[1..];
    PartWidth(parts, off, width, z, v);
    var end := p.base + p.wid;
    var zt := if p.base > off then z + 1 else z;
    assert Within(tail, end, width) by {
      if |tail| > 0 { assert tail[0] == parts[1] && tail[|tail| - 1] == parts[|parts| - 1]; }
    }
    assert Stacked(tail);
    LayoutTiles(tail, end, width, zt, v);
    var rest := Join(v, Layout(tail, end, width, zt));
    forall i: nat | off <= i < width
      ensures BitAt(Join(v, Layout(parts, off, width, z)), i - off) == Pick(parts, v, i)
    {
      BitOfThree(Fill(Vz, p.base - off), Get(v, p.part), rest, i - off);
      if i < p.base { PickBelow(tail, v, i, end); }
    }
  }

  lemma JoinHead(v: Valuation, gap: seq<NexusId>, part: NexusId, rest: seq<NexusId>)
    requires |gap| <= 1
    ensures Join(v, gap + [part] + rest) == (if |gap| == 1 then Get(v, gap[0]) else []) + Get(v, part) + Join(v, rest)
  {
    assert ([part] + rest)[1..] == rest;
    if |gap| == 1 {
      assert (gap + [part] + rest)[1..] == [part] + rest;
    } else {
      assert gap + [part] + rest == [part] + rest;
    }
  }

  lemma {:induction false} PickBelow(parts: seq<Node>, v: Valuation, i: nat, off: nat)
    requires AllParts(parts) && Stacked(parts) && i < off && (|parts| > 0 ==> off <= parts[0].base)
    ensures Pick(parts, v, i) == Vz
  {
    if |parts| > 0 { PickBelow(parts[1..], v, i, off); }
  }
}
