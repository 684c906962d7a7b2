/** The constant propagation pass itself: functors that rewrite a design while scanning its nodes. */
module CpropFunctors {
  import opened Logic4
  import opened Netlists
  import opened Rewrites
  import opened Constants
  import opened CpropRewrites
  import opened MergeRewrite
  import opened Designs
  import opened CpropSteps
  import opened CpropDuties
  import opened DanglingConstants

  lemma JoinDrivenSnoc(a: Netlist, order: seq<NodeId>, parts: seq<NexusId>, p: NexusId, fuel: nat)
    ensures JoinDriven(a, order, parts + [p], fuel)
      == JoinDriven(a, order, parts, fuel) + DrivenVector(a, order, p, fuel)
  {
    if |parts| > 0 {
      assert (parts + [p])[1..] == parts[1..] + [p];
      JoinDrivenSnoc(a, order, parts[1..], p, fuel);
    }
  }

  lemma {:induction false} TotalWidthSplit(a: Netlist, x: seq<NexusId>, y: seq<NexusId>)
    ensures TotalWidth(a, x + y) == TotalWidth(a, x) + TotalWidth(a, y)
  {
    if |x| == 0 {
      assert x + y == y;
    } else {
      assert (x + y)[1..] == x[1..] + y;
      TotalWidthSplit(a, x[1..], y);
    }
  }

  lemma ZConstsGrow(gaps: seq<nat>, g: nat, c: NodeId, z: NexusId)
    ensures ZConsts(gaps + [g], c, z) == ZConsts(gaps, c, z)[c + |gaps| := Const(Fill(Vz, g), z + |gaps|)]
    ensures ZNexuses(gaps + [g], z) == ZNexuses(gaps, z)[z + |gaps| := Nexus(g, [PLAIN_WIRE])]
  {
  }

  /** The inputs of a concatenation, when they are all constant, joined into one vector. */
  method JoinConstants(nl: Netlist, order: seq<NodeId>, id: NodeId) returns (ok: bool, result: Vec)
    requires WellFormed(nl) && id in nl.nodes && nl.nodes[id].Concat?
    ensures ok <==> forall p :: p in nl.nodes[id].parts ==> DriversConstant(nl, order, p, |order|)
    ensures ok ==> result == JoinDriven(nl, order, nl.nodes[id].parts, |order|)
  {
    hide DriversConstant, DrivenVector, JoinDriven, WellFormed;
    var obj := nl.nodes[id];
    ConcatInputs(nl, id);
    result := Fill(Vz, obj.width);
    var off, idx := 0, 0;
    while idx < |obj.parts|
      invariant 0 <= idx <= |obj.parts| && |result| == obj.width
      invariant forall p :: p in obj.parts[..idx] ==> DriversConstant(nl, order, p, |order|)
      invariant off == TotalWidth(nl, obj.parts[..idx]) && off <= obj.width
      invariant result[..off] == JoinDriven(nl, order, obj.parts[..idx], |order|)
    {
      if !DriversConstant(nl, order, obj.parts[idx], |order|) {
        assert obj.parts[idx] in obj.parts;
        return false, result;
      }
      ConcatAdvance(nl, order, obj.parts, idx);
      var tmp := DrivenVector(nl, order, obj.parts[idx], |order|);
      OverlayPrefix(result, tmp, off);
      result := Overlay(result, tmp, off);
      off := off + |tmp|;
      idx := idx + 1;
    }
    assert obj.parts[..idx] == obj.parts;
    assert result == result[..off];
    ok := true;
  }

  lemma ConcatInputs(nl: Netlist, id: NodeId)
    requires WellFormed(nl) && id in nl.nodes && nl.nodes[id].Concat?
    ensures TotalWidth(nl, nl.nodes[id].parts) == nl.nodes[id].width
    ensures forall p :: p in nl.nodes[id].parts ==> p in nl.nexus
    ensures forall order, fuel :: JoinDriven(nl, order, [], fuel) == []
  {
    AllFit(nl, id);
    assert nl.nodes[id].Inputs() == nl.nodes[id].parts;
  }

  lemma OverlayPrefix(result: Vec, tmp: Vec, off: nat)
    requires off + |tmp| <= |result|
    ensures Overlay(result, tmp, off)[..off + |tmp|] == result[..off] + tmp
  {
  }

  class CpropFunctor {
    var count: nat

    constructor ()
      ensures count == 0
    {
      count := 0;
    }

    method LpmConcat(d: Design, id: NodeId)
      requires d.Valid() && id in d.nodes && d.nodes[id].Concat?
      modifies this, d
      ensures d.Tidy()
      ensures old(ConcatFolds(d.Net(), d.order, id)) ==>
        count == old(count) + 1
        && d.Net() == old(Replaced(d.Net(), id, d.nextNode, FoldedConcat(d.Net(), d.order, d.nodes[id])))
      ensures old(!ConcatFolds(d.Net(), d.order, id)) ==> count == old(count) && unchanged(d)
      ensures old(!d.nodes[id].transparent && PartsHoldConstants(d.Net(), id)) ==>
        count == old(count) + 1 && id !in d.nodes
    {
      hide WellFormed, DriversConstant, DrivenVector, JoinDriven, OnList, Free;
      var obj := d.nodes[id];
      if !obj.transparent && PartsHoldConstants(d.Net(), id) { ConcatMustFold(d.Net(), d.order, id); }
      if obj.transparent { return; }
      var nl, order := Netlist(d.nodes, d.nexus), d.order;
      var ok, result := JoinConstants(nl, order, id);
      if !ok { return; }
      var result_obj := d.AddNode(Const(result, obj.q));
      var j := d.DelNode(id);
      count := count + 1;
      assert d.nodes == (nl.nodes - {id}) + map[result_obj := Const(result, obj.q)];
    }

    method LpmMux(d: Design, id: NodeId)
      requires d.Valid() && id in d.nodes && d.nodes[id].Mux?
      modifies this, d
      ensures d.Tidy()
      ensures old(MuxFolds(d.Net(), d.order, id)) ==>
        count == old(count) + 1
        && d.Net() == old(Replaced(d.Net(), id, d.nextNode, FoldedMux(d.Net(), d.order, d.nodes[id])))
      ensures old(!MuxFolds(d.Net(), d.order, id)) ==> count == old(count) && unchanged(d)
      ensures forall c, bit: V ::
        old(|d.nodes[id].data| == 2 && d.nodes[id].selWidth == 1
            && HoldsConstant(d.Net(), d.nodes[id].sel, c) && d.nodes[c].value == [bit]) ==>
          if bit == V0 || bit == V1 then
            && count == old(count) + 1 && d.nexus == old(d.nexus)
            && d.nodes == old((d.nodes - {id}) + map[d.nextNode :=
                 Bufz(d.nodes[id].width, d.nodes[id].q, d.nodes[id].data[if bit == V1 then 1 else 0])])
          else count == old(count) && unchanged(d)
    {
      hide WellFormed, DriversConstant, DrivenValue, OnList, HoldsConstant;
      var obj := d.nodes[id];
      forall c | |obj.data| == 2 && obj.selWidth == 1 && HoldsConstant(d.Net(), obj.sel, c)
        ensures c in d.nodes && d.nodes[c].Const? && |d.nodes[c].value| == 1
        ensures MuxFolds(d.Net(), d.order, id) <==> d.nodes[c].value[0] == V0 || d.nodes[c].value[0] == V1
        ensures MuxFolds(d.Net(), d.order, id) ==>
          FoldedMux(d.Net(), d.order, obj)
            == Bufz(obj.width, obj.q, obj.data[if d.nodes[c].value == [V1] then 1 else 0])
      {
        HeldExists(d.Net(), obj.sel, c);
        MuxMustFold(d.Net(), d.order, id, c);
      }
      if |obj.data| != 2 { return; }
      if obj.selWidth != 1 { return; }
      var nl, order := Netlist(d.nodes, d.nexus), d.order;
      if !DriversConstant(nl, order, obj.sel, |order|) { return; }
      var selVal := DrivenValue(nl, order, obj.sel);
      if selVal == Vz || selVal == Vx { return; }
      var tmp := Bufz(obj.width, obj.q, if selVal == V1 then obj.data[1] else obj.data[0]);
      var j := d.DelNode(id);
      var added := d.AddNode(tmp);
      count := count + 1;
      assert d.nodes == (nl.nodes - {id}) + map[added := tmp];
    }

    /** Deletes a flip-flop that feeds itself, without counting it. */
    method LpmFf(d: Design, id: NodeId)
      requires d.Valid() && id in d.nodes && d.nodes[id].Device? && d.nodes[id].kind.Flop?
      modifies d
      ensures d.Tidy()
      ensures id !in d.nodes <==>
        old(d.nodes[id].ins[..1] == d.nodes[id].outs && !d.nodes[id].kind.controlled)
      ensures old(SelfFed(d.nodes[id])) ==>
        d.Net() == old(Drop(d.Net(), id)) && Delisted(old(d.order), old(d.functorNext), d.order, d.functorNext, id)
      ensures old(!SelfFed(d.nodes[id])) ==> unchanged(d)
    {
      hide WellFormed, OnList;
      var obj := d.nodes[id];
      FlopPins(d.Net(), id);
      if obj.ins[0] == obj.outs[0] && !obj.kind.controlled {
        var j := d.DelNode(id);
      }
    }

    /** The part selects that drive `q`, unless something else drives it too. */
    method CollectParts(d: Design, q: NexusId) returns (ok: bool, ids: seq<NodeId>)
      requires d.Valid() && q in d.nexus
      ensures ok <==> !HasOutput(d.nexus[q].signals) && AreParts(d.Net(), OutLinks(d.nodes, d.order, q), q)
      ensures ok ==> ids == OutLinks(d.nodes, d.order, q)
    {
      hide WellFormed, OutLinks, OnList;
      ids := [];
      if HasOutput(d.nexus[q].signals) { return false, ids; }
      assert d.order[0..] == d.order;
      var idx := 0;
      while idx < |d.order|
        invariant 0 <= idx <= |d.order|
        invariant ids + OutLinks(d.nodes, d.order[idx..], q) == OutLinks(d.nodes, d.order, q)
        invariant AreParts(d.Net(), ids, q)
      {
        var cur := d.order[idx];
        OutLinksUnfold(d.nodes, d.order, idx, q);
        if q in d.nodes[cur].Outputs() {
          if !d.nodes[cur].PartPV? {
            assert OutLinks(d.nodes, d.order, q)[|ids|] == cur;
            return false, ids;
          }
          ids := ids + [cur];
        }
        idx := idx + 1;
      }
      OutLinksEnd(d.nodes, d.order, q);
      ok := true;
    }

    /** Insertion into a list sorted by base. */
    method SortByBase(d: Design, ids: seq<NodeId>, q: NexusId) returns (sorted: seq<NodeId>)
      requires AreParts(d.Net(), ids, q) && Distinct(ids)
      ensures AreParts(d.Net(), sorted, q) && SortedByBase(d.Net(), sorted) && Permuted(ids, sorted)
    {
      sorted := [];
      var idx := 0;
      while idx < |ids|
        invariant 0 <= idx <= |ids| && AreParts(d.Net(), sorted, q)
        invariant SortedByBase(d.Net(), sorted) && Permuted(ids[..idx], sorted)
      {
        var k := |sorted|;
        while k > 0 && d.nodes[sorted[k - 1]].base > d.nodes[ids[idx]].base
          invariant 0 <= k <= |sorted|
          invariant forall j :: k <= j < |sorted| ==> d.nodes[sorted[j]].base > d.nodes[ids[idx]].base
        {
          k := k - 1;
        }
        InsertPermuted(ids, idx, sorted, k);
        sorted := sorted[..k] + [ids[idx]] + sorted[k..];
        idx := idx + 1;
      }
      assert ids[..idx] == ids;
    }

    /** Neighbours that overlap, or a last part that runs off the end. */
    method CanTile(d: Design, sorted: seq<NodeId>, q: NexusId) returns (ok: bool)
      requires d.Valid() && q in d.nexus && AreParts(d.Net(), sorted, q) && |sorted| >= 2
      requires AllParts(PartsOf(d.Net(), sorted))
      ensures ok <==> Tiling(d.Net(), sorted, q)
    {
      ghost var parts := PartsOf(d.Net(), sorted);
      var idx := 1;
      while idx < |sorted|
        invariant 1 <= idx <= |sorted|
        invariant forall j :: 1 <= j < idx ==> parts[j - 1].base + parts[j - 1].wid <= parts[j].base
      {
        var top := d.nodes[sorted[idx - 1]].base + d.nodes[sorted[idx - 1]].wid;
        if top > d.nodes[sorted[idx]].base {
          assert parts[idx - 1].base + parts[idx - 1].wid > parts[idx].base;
          return false;
        }
        idx := idx + 1;
      }
      var back := d.nodes[sorted[|sorted| - 1]];
      assert parts[|parts| - 1] == back;
      ok := back.base + back.wid <= d.nexus[q].width;
    }

    /** How many pins the concatenation is going to need. */
    method CountPins(d: Design, sorted: seq<NodeId>, q: NexusId) returns (partCount: nat)
      requires d.Valid() && Tiling(d.Net(), sorted, q)
      ensures partCount == |Layout(PartsOf(d.Net(), sorted), 0, d.nexus[q].width, d.nextNexus)|
    {
      hide WellFormed, Layout, Gaps, AllParts, Stacked, Within, OnList;
      ghost var parts, width := PartsOf(d.Net(), sorted), d.nexus[q].width;
      ghost var z: NexusId := d.nextNexus;
      partCount := 0;
      var off: nat, idx: nat := 0, 0;
      assert parts[0..] == parts;
      while idx < |sorted|
        invariant 0 <= idx <= |sorted|
        invariant partCount + |Layout(parts[idx..], off, width, z)| == |Layout(parts, 0, width, d.nextNexus)|
        invariant off <= if idx < |sorted| then parts[idx].base else width
      {
        var cur := d.nodes[sorted[idx]];
        LayoutUnfold(parts, idx, off, width, z);
        if cur.base > off {
          off := cur.base;
          partCount := partCount + 1;
          z := z + 1;
        }
        off := off + cur.wid;
        partCount := partCount + 1;
        idx := idx + 1;
      }
      assert parts[idx..] == [];
      LayoutEnd(off, width, z);
      if off < d.nexus[q].width { partCount := partCount + 1; }
    }

    /** Connects the parts in order, with a high-impedance constant in each gap. */
    method ConnectParts(d: Design, ghost a: Netlist, sorted: seq<NodeId>, q: NexusId, c: NodeId, ghost z: NexusId)
      returns (concatPin: nat)
      requires d.Tidy() && Tiling(a, sorted, q) && Free(a, c, z)
      requires d.nodes == a.nodes[c := Concat(a.nexus[q].width, false, q, [])] && d.nexus == a.nexus
      requires d.nextNode == c + 1 && d.nextNexus == z
      modifies d
      ensures d.Tidy()
      ensures d.nodes == a.nodes + MergeNodes(PartsOf(a, sorted), a.nexus[q].width, q, c, z)
      ensures d.nexus == a.nexus + ZNexuses(Gaps(PartsOf(a, sorted), 0, a.nexus[q].width), z)
      ensures concatPin == 1 + |Layout(PartsOf(a, sorted), 0, a.nexus[q].width, z)|
    {
      hide Layout, Gaps, AllParts, Stacked, Within, OnList, ZConsts, ZNexuses, Free, Progress;
      ghost var parts := PartsOf(a, sorted);
      ghost var pins: seq<NexusId>, done: seq<nat> := [], [];
      var width := d.nexus[q].width;
      var off: nat, idx: nat := 0, 0;
      concatPin := 1;
      Start(d, a, c, z, q);
      assert parts[0..] == parts;
      while idx < |sorted|
        invariant 0 <= idx <= |sorted| && d.Tidy() && concatPin == 1 + |pins|
        invariant Progress(d, a, c, z, q, width, pins, done)
        invariant pins + Layout(parts[idx..], off, width, z + |done|) == Layout(parts, 0, width, z)
        invariant done + Gaps(parts[idx..], off, width) == Gaps(parts, 0, width)
        invariant off <= if idx < |sorted| then parts[idx].base else width
      {
        LayoutUnfold(parts, idx, off, width, z + |done|);
        PartUntouched(d, a, c, z, q, width, pins, done, sorted[idx]);
        var cobj := d.nodes[sorted[idx]];
        ghost var next := if cobj.base > off then z + |done| + 1 else z + |done|;
        ghost var restPins := Layout(parts[idx + 1..], cobj.base + cobj.wid, width, next);
        ghost var restGaps := Gaps(parts[idx + 1..], cobj.base + cobj.wid, width);
        if cobj.base > off {
          FillGap(d, a, c, z, q, width, pins, done, cobj.base - off);
          pins, done := pins + [z + |done|], done + [cobj.base - off];
          concatPin := concatPin + 1;
          off := cobj.base;
        }
        assert pins + ([cobj.part] + restPins) == Layout(parts, 0, width, z);
        assert done + restGaps == Gaps(parts, 0, width);
        Connect(d, a, c, z, q, width, pins, done, cobj.part);
        pins := pins + [cobj.part];
        concatPin := concatPin + 1;
        off := off + cobj.wid;
        idx := idx + 1;
      }
      assert parts[idx..] == [];
      LayoutEnd(off, width, z + |done|);
      if off < width {
        FillGap(d, a, c, z, q, width, pins, done, width - off);
        pins, done := pins + [z + |done|], done + [width - off];
        concatPin := concatPin + 1;
      }
      assert pins == Layout(parts, 0, width, z);
      assert done == Gaps(parts, 0, width);
      Finish(d, a, c, z, q, width, pins, done, parts);
    }

    /** So far the concatenation has the pins `pins`, and the gaps `done` have their constants. */
    ghost predicate Progress(d: Design, a: Netlist, c: NodeId, z: NexusId, q: NexusId, width: nat, pins: seq<NexusId>,
                             done: seq<nat>)
      reads d
    {
      && d.nodes == a.nodes + ZConsts(done, c + 1, z)[c := Concat(width, false, q, pins)]
      && d.nexus == a.nexus + ZNexuses(done, z)
      && d.nextNode == c + 1 + |done| && d.nextNexus == z + |done|
    }

    lemma Start(d: Design, a: Netlist, c: NodeId, z: NexusId, q: NexusId)
      requires q in a.nexus && d.nodes == a.nodes[c := Concat(a.nexus[q].width, false, q, [])] && d.nexus == a.nexus
      requires d.nextNode == c + 1 && d.nextNexus == z
      ensures Progress(d, a, c, z, q, a.nexus[q].width, [], [])
    {
      hide ZConsts, ZNexuses;
      NoZ(c + 1, z);
      assert a.nodes + map[][c := Concat(a.nexus[q].width, false, q, [])] == d.nodes;
      assert a.nexus + map[] == d.nexus;
    }

    lemma Finish(d: Design, a: Netlist, c: NodeId, z: NexusId, q: NexusId, width: nat, pins: seq<NexusId>,
                 done: seq<nat>, parts: seq<Node>)
      requires Progress(d, a, c, z, q, width, pins, done)
      requires pins == Layout(parts, 0, width, z) && done == Gaps(parts, 0, width)
      ensures d.nodes == a.nodes + MergeNodes(parts, width, q, c, z)
      ensures d.nexus == a.nexus + ZNexuses(Gaps(parts, 0, width), z)
    {
    }

    lemma PartUntouched(d: Design, a: Netlist, c: NodeId, z: NexusId, q: NexusId, width: nat, pins: seq<NexusId>,
                        done: seq<nat>, id: NodeId)
      requires Progress(d, a, c, z, q, width, pins, done) && id in a.nodes && Free(a, c, z)
      ensures id in d.nodes && d.nodes[id] == a.nodes[id]
    {
    }

    method FillGap(d: Design, ghost a: Netlist, c: NodeId, ghost z: NexusId, ghost q: NexusId, ghost width: nat,
                   ghost pins: seq<NexusId>, ghost done: seq<nat>, gap: nat)
      requires d.Tidy() && Progress(d, a, c, z, q, width, pins, done) && Free(a, c, z)
      modifies d
      ensures d.Tidy() && Progress(d, a, c, z, q, width, pins + [z + |done|], done + [gap])
    {
      hide OnList, Free, ZConsts, ZNexuses;
      ghost var zs, k := ZConsts(done, c + 1, z), d.nextNode;
      var zzz := d.MakeConstZ(gap);
      d.ConnectPart(c, zzz);
      ZConstsGrow(done, gap, c + 1, z);
      MapGrow(a.nodes, zs, c, Concat(width, false, q, pins), k, Const(Fill(Vz, gap), zzz),
              Concat(width, false, q, pins + [zzz]));
    }

    method Connect(d: Design, ghost a: Netlist, c: NodeId, ghost z: NexusId, ghost q: NexusId, ghost width: nat,
                   ghost pins: seq<NexusId>, ghost done: seq<nat>, n: NexusId)
      requires d.Tidy() && Progress(d, a, c, z, q, width, pins, done)
      modifies d
      ensures d.Tidy() && Progress(d, a, c, z, q, width, pins + [n], done)
    {
      hide OnList, ZConsts, ZNexuses;
      d.ConnectPart(c, n);
    }

    method DeleteParts(d: Design, ids: seq<NodeId>)
      requires d.Tidy() && Distinct(ids) && forall j :: 0 <= j < |ids| ==> ids[j] in d.nodes
      modifies d
      ensures d.Tidy() && d.nodes == old(d.nodes) - IdSet(ids) && d.nexus == old(d.nexus)
    {
      hide OnList;
      var idx := 0;
      while idx < |ids|
        invariant 0 <= idx <= |ids| && d.Tidy()
        invariant d.nodes == old(d.nodes) - IdSet(ids[..idx]) && d.nexus == old(d.nexus)
      {
        assert ids[idx] !in ids[..idx];
        var j := d.DelNode(ids[idx]);
        assert ids[..idx + 1] == ids[..idx] + [ids[idx]];
        idx := idx + 1;
      }
      assert ids[..idx] == ids;
    }

    method LpmPartSelect(d: Design, id: NodeId)
      requires d.Valid() && id in d.nodes && d.nodes[id].PartPV?
      modifies this, d
      ensures d.Tidy()
      ensures old(PartsMerge(d.Net(), d.order, id)) ==>
        && count == old(count) + 1 && Step(old(d.Net()), d.Net())
        && exists ids ::
             && Permuted(old(OutLinks(d.nodes, d.order, d.nodes[id].q)), ids)
             && old(Tiling(d.Net(), ids, d.nodes[id].q))
             && Merged(old(d.Net()), d.Net(), ids, old(d.nodes[id].q), old(d.nextNode), old(d.nextNexus))
      ensures old(!PartsMerge(d.Net(), d.order, id)) ==> count == old(count) && unchanged(d)
      ensures count == old(count) + 1 <==> old(PartsTile(d.Net(), d.nodes[id].q))
    {
      hide WellFormed, OutLinks, OnList, Tiling, Step, Free, Layout, Gaps, MergeNodes, ZNexuses;
      hide Apart, Inside, HasOutput, AllParts, Stacked, Within;
      ghost var a := d.Net();
      var q := d.nodes[id].q;
      PartTarget(a, id);
      PartsMustMerge(a, d.order, q);
      hide PartsTile;
      var ok, ids := CollectParts(d, q);
      if !ok { return; }
      if |ids| < 2 { return; }
      assert Distinct(d.order) by { ListIsDistinct(d.nodes, d.order); }
      DistinctOutLinks(d.nodes, d.order, q);
      var sorted := SortByBase(d, ids, q);
      SortedTiling(a, ids, sorted, q);
      ok := CanTile(d, sorted, q);
      if !ok { return; }
      assert PartsMerge(a, d.order, id);
      var partCount := CountPins(d, sorted, q);
      ghost var z := d.nextNexus;
      var concat := d.AddNode(Concat(d.nexus[q].width, false, q, []));
      var concatPin := ConnectParts(d, a, sorted, q, concat, z);
      assert concatPin == 1 + partCount;
      PartsSurvive(a, sorted, q, concat, z);
      DeleteParts(d, sorted);
      count := count + 1;
      MergedBy(a, d.Net(), sorted, q, concat, z);
      MergeStep(a, d.Net(), sorted, q, concat, z);
    }
  }

  lemma FlopPins(a: Netlist, id: NodeId)
    requires WellFormed(a) && id in a.nodes && a.nodes[id].Device? && a.nodes[id].kind.Flop?
    ensures |a.nodes[id].ins| > 0 && |a.nodes[id].outs| == 1 && a.nodes[id].passive == []
  {
    AllFit(a, id);
  }

  lemma OutLinksUnfold(nodes: map<NodeId, Node>, order: seq<NodeId>, idx: nat, q: NexusId)
    requires OnList(nodes, order) && idx < |order|
    ensures order[idx] in nodes
    ensures OutLinks(nodes, order[idx..], q) ==
      (if q in nodes[order[idx]].Outputs() then [order[idx]] else []) + OutLinks(nodes, order[idx + 1..], q)
  {
    assert order[idx..][0] == order[idx] && order[idx..][1..] == order[idx + 1..];
  }

  lemma OutLinksEnd(nodes: map<NodeId, Node>, order: seq<NodeId>, q: NexusId)
    ensures OutLinks(nodes, order[|order|..], q) == []
  {
  }

  lemma MapGrow<T>(base: map<nat, T>, more: map<nat, T>, c: nat, x: T, k: nat, y: T, x': T)
    requires k != c
    ensures (base + more[c := x])[k := y][c := x'] == base + more[k := y][c := x']
  {
  }

  lemma NoZ(c: NodeId, z: NexusId)
    ensures ZConsts([], c, z) == map[] && ZNexuses([], z) == map[]
  {
  }

  lemma PartTarget(a: Netlist, id: NodeId)
    requires WellFormed(a) && id in a.nodes && a.nodes[id].PartPV?
    ensures a.nodes[id].q in a.nexus
  {
    AllFit(a, id);
    assert a.nodes[id].q in a.nodes[id].Drives();
  }

  lemma ListIsDistinct(nodes: map<NodeId, Node>, order: seq<NodeId>)
    requires OnList(nodes, order)
    ensures Distinct(order)
  {
  }

  /** The order of the sorted list does not matter to the conditions. */
  lemma SortedTiling(a: Netlist, ids: seq<NodeId>, sorted: seq<NodeId>, q: NexusId)
    requires WellFormed(a) && q in a.nexus && AreParts(a, ids, q) && AreParts(a, sorted, q)
    requires SortedByBase(a, sorted) && Permuted(ids, sorted) && |ids| > 0
    ensures AllParts(PartsOf(a, sorted))
    ensures Tiling(a, sorted, q) <==> Apart(a, ids) && Inside(a, ids, a.nexus[q].width)
  {
    hide WellFormed, AllParts, Stacked, Within, Apart, Overlap, SortedByBase;
    TilingWhenSorted(a, sorted, q);
    SortedApart(a, ids, sorted, q);
    InsidePermuted(a, ids, sorted, q);
    InsidePermuted(a, sorted, ids, q);
  }

  lemma InsidePermuted(a: Netlist, x: seq<NodeId>, y: seq<NodeId>, q: NexusId)
    requires AreParts(a, x, q) && AreParts(a, y, q) && Permuted(x, y) && q in a.nexus
    ensures Inside(a, x, a.nexus[q].width) ==> Inside(a, y, a.nexus[q].width)
  {
    if Inside(a, x, a.nexus[q].width) {
      forall j | 0 <= j < |y| ensures a.nodes[y[j]].base + a.nodes[y[j]].wid <= a.nexus[q].width {
        assert y[j] in x;
      }
    }
  }

  lemma PartsSurvive(a: Netlist, ids: seq<NodeId>, q: NexusId, c: NodeId, z: NexusId)
    requires Tiling(a, ids, q)
    ensures forall j :: 0 <= j < |ids| ==> ids[j] in a.nodes + MergeNodes(PartsOf(a, ids), a.nexus[q].width, q, c, z)
  {
    hide Layout, Gaps;
  }

  lemma MergedBy(a: Netlist, b: Netlist, ids: seq<NodeId>, q: NexusId, c: NodeId, z: NexusId)
    requires Tiling(a, ids, q) && Free(a, c, z)
    requires b.nodes == (a.nodes + MergeNodes(PartsOf(a, ids), a.nexus[q].width, q, c, z)) - IdSet(ids)
    requires b.nexus == a.nexus + ZNexuses(Gaps(PartsOf(a, ids), 0, a.nexus[q].width), z)
    ensures Merged(a, b, ids, q, c, z)
  {
    hide Layout, Gaps;
    var added := MergeNodes(PartsOf(a, ids), a.nexus[q].width, q, c, z);
    forall id | id in IdSet(ids) ensures id !in added { assert id in a.nodes; }
    assert b.nodes == (a.nodes - IdSet(ids)) + added;
  }

  lemma LayoutEnd(off: nat, width: nat, z: NexusId)
    ensures Layout([], off, width, z) == if off < width then [z] else []
    ensures Gaps([], off, width) == if off < width then [width - off] else []
  {
  }

  lemma LayoutUnfold(parts: seq<Node>, idx: nat, off: nat, width: nat, z: NexusId)
    requires AllParts(parts) && Stacked(parts) && Within(parts, 0, width) && idx < |parts| && off <= parts[idx].base
    ensures var p := parts[idx];
      && p.base + p.wid <= (if idx + 1 < |parts| then parts[idx + 1].base else width)
      && Layout(parts[idx..], off, width, z) ==
           (if p.base > off then [z] else []) + [p.part]
           + Layout(parts[idx + 1..], p.base + p.wid, width, if p.base > off then z + 1 else z)
      && Gaps(parts[idx..], off, width) ==
           (if p.base > off then [p.base - off] else []) + Gaps(parts[idx + 1..], p.base + p.wid, width)
  {
    hide Layout, Gaps;
    assert parts[idx..][0] == parts[idx] && parts[idx..][1..] == parts[idx + 1..];
    LayoutFirst(parts[idx..], off, width, z);
  }

  lemma LayoutFirst(parts: seq<Node>, off: nat, width: nat, z: NexusId)
    requires |parts| > 0 && parts[0].PartPV? && off <= parts[0].base
    ensures var p := parts[0];
      && Layout(parts, off, width, z) ==
           (if p.base > off then [z] else []) + [p.part]
           + Layout(parts[1..], p.base + p.wid, width, if p.base > off then z + 1 else z)
      && Gaps(parts, off, width)
           == (if p.base > off then [p.base - off] else []) + Gaps(parts[1..], p.base + p.wid, width)
  {
  }

  lemma InsertPermuted(ids: seq<NodeId>, idx: nat, sorted: seq<NodeId>, k: nat)
    requires idx < |ids| && Distinct(ids) && Permuted(ids[..idx], sorted) && k <= |sorted|
    ensures Permuted(ids[..idx + 1], sorted[..k] + [ids[idx]] + sorted[k..])
  {
    var x, y := ids[..idx + 1], sorted[..k] + [ids[idx]] + sorted[k..];
    assert ids[idx] !in ids[..idx];
    assert x == ids[..idx] + [ids[idx]];
    assert sorted == sorted[..k] + sorted[k..];
    forall i, j | 0 <= i < j < |y| ensures y[i] != y[j] {
      assert y[i] == ids[idx] || y[i] == sorted[if i < k then i else i - 1];
      assert y[j] == ids[idx] || y[j] == sorted[if j < k then j else j - 1];
    }
  }

  lemma ConcatAdvance(nl: Netlist, order: seq<NodeId>, parts: seq<NexusId>, idx: nat)
    requires WellFormed(nl) && idx < |parts| && (forall p :: p in parts ==> p in nl.nexus)
    requires DriversConstant(nl, order, parts[idx], |order|)
    ensures |DrivenVector(nl, order, parts[idx], |order|)| == nl.nexus[parts[idx]].width
    ensures TotalWidth(nl, parts[..idx + 1]) == TotalWidth(nl, parts[..idx]) + nl.nexus[parts[idx]].width
    ensures TotalWidth(nl, parts[..idx + 1]) <= TotalWidth(nl, parts)
    ensures JoinDriven(nl, order, parts[..idx + 1], |order|)
         == JoinDriven(nl, order, parts[..idx], |order|) + DrivenVector(nl, order, parts[idx], |order|)
  {
    hide WellFormed, DriversConstant, DrivenVector;
    DrivenWidth(nl, order, parts[idx], |order|);
    assert parts[..idx + 1] == parts[..idx] + [parts[idx]];
    TotalWidthSplit(nl, parts[..idx], [parts[idx]]);
    assert parts == parts[..idx + 1] + parts[idx + 1..];
    TotalWidthSplit(nl, parts[..idx + 1], parts[idx + 1..]);
    JoinDrivenSnoc(nl, order, parts[..idx], parts[idx], |order|);
  }
}
