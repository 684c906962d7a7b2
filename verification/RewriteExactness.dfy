/** Exactly when a rewrite of constant propagation keeps what can be seen, netlist by netlist and world by
    world, where nothing else bears on the nexus it is about. */
module RewriteExactness {
  import opened Logic4
  import opened Netlists
  import opened Rewrites
  import opened Constants
  import opened CpropRewrites
  import opened CpropSteps
  import opened DanglingConstants

  /** Pin 0 of node `id` is all that bears on `q`: no other pin, no pull, nothing from outside. */
  ghost predicate SoleDriver(a: Netlist, id: NodeId, q: NexusId)
  {
    && q in a.nexus && !a.nexus[q].IsOpen() && PullCount(a.nexus[q].signals) == 0
    && Pin(a, id, 0, q) && forall id', k :: Pin(a, id', k, q) ==> id' == id && k == 0
  }

  lemma SoleDriverValue(a: Netlist, w: World, v: Valuation, id: NodeId, q: NexusId)
    requires SoleDriver(a, id, q) && Consistent(a, w, v)
    ensures |Get(v, q)| == a.nexus[q].width
    ensures forall i: nat :: i < a.nexus[q].width ==> BitAt(Get(v, q), i) == DriverBit(w, v, id, a.nodes[id], 0, i)
  {
    hide Consistent, DriverBit, Resolved, Pulled;
    ConsistentAt(a, w, v, q);
    forall i: nat | i < a.nexus[q].width ensures BitAt(Get(v, q), i) == DriverBit(w, v, id, a.nodes[id], 0, i) {
      SoleDrive(a, w, v, q, i, id, 0);
      NoPulls(a.nexus[q].signals, DriverBit(w, v, id, a.nodes[id], 0, i));
    }
  }

  lemma NobodyDrives(b: Netlist, w: World, v: Valuation, q: NexusId)
    requires q in b.nexus && !b.nexus[q].IsOpen() && PullCount(b.nexus[q].signals) == 0
    requires (forall id, k :: !Pin(b, id, k, q)) && Consistent(b, w, v)
    ensures |Get(v, q)| == b.nexus[q].width && AllZ(Get(v, q))
  {
    hide Consistent, Resolved, Pulled;
    ConsistentAt(b, w, v, q);
    forall i | 0 <= i < |Get(v, q)| ensures Get(v, q)[i] == Vz {
      DrivenFromOutside(b, w, v, q, i);
      NoPulls(b.nexus[q].signals, Vz);
      assert BitAt(Get(v, q), i) == Get(v, q)[i];
    }
  }

  /** A preserved valuation looks the same on an observed nexus. */
  lemma SeenTheSame(w: World, a: Netlist, b: Netlist, v: Valuation) returns (v': Valuation)
    requires Preserves(w, a, b) && Consistent(a, w, v)
    ensures Consistent(b, w, v') && Agree(a, b, v, v')
  {
    hide Consistent, Agree, Carried, Traced, Extends;
    assert Carried(w, a, b, v);
    UnfoldCarried(w, a, b, v);
    v' :| Consistent(b, w, v') && Agree(a, b, v, v');
  }

  // ----- folding a concatenation -----

  function JoinCarried(a: Netlist, w: World, order: seq<NodeId>, parts: seq<NexusId>, fuel: nat): Vec
  {
    if |parts| == 0 then [] else CarriedVector(a, w, order, parts[0], fuel) + JoinCarried(a, w, order, parts[1..], fuel)
  }

  lemma {:induction false} JoinIsCarried(a: Netlist, order: seq<NodeId>, q: NexusId, w: World, v: Valuation,
                                         parts: seq<NexusId>, fuel: nat)
    requires WellFormed(a) && Lists(a, order) && Opaque(a, q) && SameBut(a, a, q) && Consistent(a, w, v)
    requires forall p :: p in parts ==> DriversConstant(a, order, p, fuel)
    ensures Join(v, parts) == JoinCarried(a, w, order, parts, fuel)
  {
    hide Consistent, WellFormed, DriversConstant, CarriedVector, Opaque, SameBut, Lists;
    if |parts| > 0 {
      ConstantMeaning(a, a, order, q, w, v, parts[0], fuel);
      JoinIsCarried(a, order, q, w, v, parts[1..], fuel);
    }
  }

  /** The joined vectors are the same only if each input is as driven. */
  lemma {:induction false} JoinsAgree(a: Netlist, w: World, order: seq<NodeId>, parts: seq<NexusId>, fuel: nat)
    requires WellFormed(a) && forall p :: p in parts ==> DriversConstant(a, order, p, fuel)
    ensures JoinCarried(a, w, order, parts, fuel) == JoinDriven(a, order, parts, fuel) <==>
      forall p :: p in parts ==> AsDriven(a, w, order, p, fuel)
  {
    hide WellFormed, DriversConstant, CarriedVector, DrivenVector;
    if |parts| > 0 {
      ConstantWidth(a, w, order, parts[0], fuel);
      JoinsAgree(a, w, order, parts[1..], fuel);
      SplitEqual(CarriedVector(a, w, order, parts[0], fuel), JoinCarried(a, w, order, parts[1..], fuel),
                 DrivenVector(a, order, parts[0], fuel), JoinDriven(a, order, parts[1..], fuel));
      FirstAndRest(a, w, order, parts, fuel);
    }
  }

  lemma FirstAndRest(a: Netlist, w: World, order: seq<NodeId>, parts: seq<NexusId>, fuel: nat)
    requires |parts| > 0
    ensures (forall p :: p in parts ==> AsDriven(a, w, order, p, fuel)) <==>
      AsDriven(a, w, order, parts[0], fuel) && forall p :: p in parts[1..] ==> AsDriven(a, w, order, p, fuel)
  {
    hide AsDriven;
    assert forall p :: p in parts <==> p == parts[0] || p in parts[1..];
  }

  lemma SplitEqual(x: Vec, y: Vec, x': Vec, y': Vec)
    requires |x| == |x'|
    ensures x + y == x' + y' <==> x == x' && y == y'
  {
    assert x == (x + y)[..|x|] && y == (x + y)[|x|..];
    assert x' == (x' + y')[..|x|] && y' == (x' + y')[|x|..];
  }

  lemma SelfSameBut(a: Netlist, q: NexusId)
    ensures SameBut(a, a, q)
  {
    forall n | n in a.nexus && n != q ensures SamePins(a, a, n) { PinsSame(a, n); }
  }

  /** The new driver takes the place of the old one. */
  lemma ReplacedSoleDriver(a: Netlist, id: NodeId, id': NodeId, node: Node, q: NexusId)
    requires SoleDriver(a, id, q) && id' !in a.nodes && !node.Device? && node.q == q
    ensures SoleDriver(Replaced(a, id, id', node), id', q)
  {
    var b := Replaced(a, id, id', node);
    forall x, k | Pin(b, x, k, q) ensures x == id' && k == 0 {
      if x != id' { assert Pin(a, x, k, q); }
    }
    assert Pin(b, id', 0, q);
  }

  lemma ConcatNecessary(a: Netlist, order: seq<NodeId>, id: NodeId, id': NodeId, w: World, v: Valuation)
    requires WellFormed(a) && Lists(a, order) && ConcatFolds(a, order, id) && id' !in a.nodes
    requires SoleDriver(a, id, a.nodes[id].q) && Consistent(a, w, v)
    requires var b := Replaced(a, id, id', FoldedConcat(a, order, a.nodes[id]));
      Observed(b, a.nodes[id].q) && Preserves(w, a, b)
    ensures forall p :: p in a.nodes[id].parts ==> AsDriven(a, w, order, p, |order|)
  {
    hide Consistent, Preserves, WellFormed, DriversConstant, JoinDriven, JoinCarried, AsDriven, SoleDriver, SameBut;
    var node := a.nodes[id];
    var q, parts, fuel := node.q, node.parts, |order|;
    var folded := FoldedConcat(a, order, node);
    var b := Replaced(a, id, id', folded);
    assert Opaque(a, q) by { assert q in node.Outputs(); }
    SelfSameBut(a, q);
    JoinIsCarried(a, order, q, w, v, parts, fuel);
    var v' := SeenTheSame(w, a, b, v);
    SoleDriverValue(a, w, v, id, q);
    ReplacedSoleDriver(a, id, id', folded, q);
    SoleDriverValue(b, w, v', id', q);
    assert q in a.nexus by { AllFit(a, id); assert q in node.Drives(); }
    assert Get(v, q) == Get(v', q);
    FoldedWidths(a, order, id, w);
    forall i: nat | i < a.nexus[q].width
      ensures BitAt(JoinCarried(a, w, order, parts, fuel), i) == BitAt(folded.value, i)
    {
      assert DriverBit(w, v, id, node, 0, i) == BitAt(Join(v, parts), i);
      assert DriverBit(w, v', id', folded, 0, i) == BitAt(folded.value, i);
    }
    VectorsEqual(JoinCarried(a, w, order, parts, fuel), folded.value);
    JoinsAgree(a, w, order, parts, fuel);
  }

  lemma FoldedWidths(a: Netlist, order: seq<NodeId>, id: NodeId, w: World)
    requires WellFormed(a) && ConcatFolds(a, order, id)
    ensures a.nodes[id].q in a.nexus
    ensures |FoldedConcat(a, order, a.nodes[id]).value| == a.nexus[a.nodes[id].q].width
    ensures |JoinCarried(a, w, order, a.nodes[id].parts, |order|)| == a.nexus[a.nodes[id].q].width
  {
    hide WellFormed, DriversConstant, JoinDriven, JoinCarried;
    AllFit(a, id);
    assert a.nodes[id].q in a.nodes[id].Drives();
    JoinDrivenWidth(a, order, a.nodes[id].parts, |order|);
    JoinCarriedWidth(a, w, order, a.nodes[id].parts, |order|);
  }

  lemma {:induction false} JoinCarriedWidth(a: Netlist, w: World, order: seq<NodeId>, parts: seq<NexusId>, fuel: nat)
    requires WellFormed(a) && forall p :: p in parts ==> DriversConstant(a, order, p, fuel)
    ensures |JoinCarried(a, w, order, parts, fuel)| == TotalWidth(a, parts)
  {
    hide WellFormed, DriversConstant, CarriedVector;
    if |parts| > 0 {
      ConstantWidth(a, w, order, parts[0], fuel);
      JoinCarriedWidth(a, w, order, parts[1..], fuel);
    }
  }

  /** A replaced driver of a nexus that nobody looks at. */
  lemma UnseenReplaced(a: Netlist, order: seq<NodeId>, id: NodeId, id': NodeId, w: World)
    requires WellFormed(a) && Lists(a, order) && ConcatFolds(a, order, id) && id' !in a.nodes
    requires SoleDriver(a, id, a.nodes[id].q)
    requires !Observed(Replaced(a, id, id', FoldedConcat(a, order, a.nodes[id])), a.nodes[id].q)
    ensures Preserves(w, a, Replaced(a, id, id', FoldedConcat(a, order, a.nodes[id])))
  {
    hide WellFormed, Preserves, DriversConstant, JoinDriven;
    var node := a.nodes[id];
    var q, folded := node.q, FoldedConcat(a, order, node);
    var b := Replaced(a, id, id', folded);
    assert !HasInput(b, q);
    assert q !in node.parts by {
      assert q in node.Outputs();
      OpaqueNotConstant(a, order, q, |order|);
    }
    assert !HasInput(a, q) by {
      forall x | x in a.nodes ensures q !in a.nodes[x].Inputs() {
        if x != id { assert x in b.nodes && b.nodes[x] == a.nodes[x]; }
      }
    }
    NotPassive(a, id, q);
    ReplacedSoleDriver(a, id, id', folded, q);
    NotPassive(b, id', q);
    assert Extends(a, b) by { ReplacedReads(a, id, id', folded); }
    UnreadPreserves(a, b, q, w);
  }

  lemma NotPassive(a: Netlist, id: NodeId, q: NexusId)
    requires SoleDriver(a, id, q) && !a.nodes[id].Device?
    ensures !HasPassive(a, q)
  {
    forall x | x in a.nodes ensures q !in a.nodes[x].Passive() {
      if q in a.nodes[x].Passive() {
        var j: nat :| j < |a.nodes[x].Passive()| && a.nodes[x].Passive()[j] == q;
        assert Pin(a, x, |a.nodes[x].Outputs()| + j, q);
      }
    }
  }

  lemma ReplacedReads(a: Netlist, id: NodeId, id': NodeId, node: Node)
    requires id' !in a.nodes && node.Inputs() == []
    ensures Extends(a, Replaced(a, id, id', node))
  {
    var b := Replaced(a, id, id', node);
    forall n | HasInput(b, n) ensures HasInput(a, n) {
      var x :| x in b.nodes && n in b.nodes[x].Inputs();
      assert x in a.nodes && n in a.nodes[x].Inputs();
    }
  }

  /** Main result: in a world that the netlist is consistent with, folding a concatenation that alone drives its
      target keeps what can be seen exactly when the target is not looked at, or every input carries what the
      inside drives. */
  lemma ConcatFoldExactlyWhen(a: Netlist, order: seq<NodeId>, id: NodeId, id': NodeId, w: World, v: Valuation)
    requires WellFormed(a) && Lists(a, order) && ConcatFolds(a, order, id) && id' !in a.nodes
    requires SoleDriver(a, id, a.nodes[id].q) && Consistent(a, w, v)
    ensures var b := Replaced(a, id, id', FoldedConcat(a, order, a.nodes[id]));
      Preserves(w, a, b) <==>
        !Observed(b, a.nodes[id].q) || forall p :: p in a.nodes[id].parts ==> AsDriven(a, w, order, p, |order|)
  {
    hide Consistent, Preserves, WellFormed, ConcatFolds, AsDriven, SoleDriver, Observed, Lists, FoldedConcat;
    assert a.nodes[id].Concat? by { FoldsOnlyConcats(a, order, id); }
    var b := Replaced(a, id, id', FoldedConcat(a, order, a.nodes[id]));
    if !Observed(b, a.nodes[id].q) { UnseenReplaced(a, order, id, id', w); }
    else if Preserves(w, a, b) { ConcatNecessary(a, order, id, id', w, v); }
    if forall p :: p in a.nodes[id].parts ==> AsDriven(a, w, order, p, |order|) {
      ConcatPreserves(a, order, id, id', w);
    }
  }

  lemma FoldsOnlyConcats(a: Netlist, order: seq<NodeId>, id: NodeId)
    requires ConcatFolds(a, order, id)
    ensures id in a.nodes && a.nodes[id].Concat?
  {
  }

  predicate ExposedPart(a: Netlist, order: seq<NodeId>, parts: seq<NexusId>)
  {
    exists p :: p in parts && SomeExposed(a, order, p, |order|)
  }

  /** Over all worlds: for a target that is looked at, the folding is right exactly when no input bit comes from
      a tri0 or tri1 port of the root. It is enough that the netlist has some valuation when such ports shout. */
  lemma ConcatFoldEquivalentExactlyWhen(a: Netlist, order: seq<NodeId>, id: NodeId, id': NodeId, v: Valuation)
    requires WellFormed(a) && Lists(a, order) && ConcatFolds(a, order, id) && id' !in a.nodes
    requires SoleDriver(a, id, a.nodes[id].q) && Consistent(a, Shouting(a), v)
    requires Observed(Replaced(a, id, id', FoldedConcat(a, order, a.nodes[id])), a.nodes[id].q)
    ensures Equivalent(a, Replaced(a, id, id', FoldedConcat(a, order, a.nodes[id]))) <==>
      !ExposedPart(a, order, a.nodes[id].parts)
  {
    hide Consistent, Preserves, WellFormed, DriversConstant, AsDriven, SoleDriver, Observed, Lists, FoldedConcat;
    hide Shouting, SomeExposed;
    var b := Replaced(a, id, id', FoldedConcat(a, order, a.nodes[id]));
    ConcatFoldExactlyWhen(a, order, id, id', Shouting(a), v);
    forall p | p in a.nodes[id].parts
      ensures SomeExposed(a, order, p, |order|) <==> !AsDriven(a, Shouting(a), order, p, |order|)
    {
      ShoutingTells(a, order, p, |order|);
    }
    if !ExposedPart(a, order, a.nodes[id].parts) {
      forall w: World ensures Preserves(w, a, b) {
        forall p | p in a.nodes[id].parts ensures AsDriven(a, w, order, p, |order|) {
          HiddenIsDriven(a, w, order, p, |order|);
        }
        ConcatPreserves(a, order, id, id', w);
      }
    }
  }

  lemma ShoutingTells(a: Netlist, order: seq<NodeId>, n: NexusId, fuel: nat)
    requires WellFormed(a) && DriversConstant(a, order, n, fuel)
    ensures SomeExposed(a, order, n, fuel) <==> !AsDriven(a, Shouting(a), order, n, fuel)
  {
    hide WellFormed, DriversConstant, CarriedVector, DrivenVector, Exposed, Shouting;
    if SomeExposed(a, order, n, fuel) {
      var i :| 0 <= i < a.nexus[n].width && Exposed(a, order, n, fuel, i);
      ExposedBit(a, Shouting(a), order, n, fuel, i);
    } else {
      HiddenIsDriven(a, Shouting(a), order, n, fuel);
    }
  }

  // ----- folding a multiplexer -----

  /** The data inputs show which one is selected: they differ somewhere, and there the kept one is not x. */
  predicate Telling(v: Valuation, data: seq<NexusId>, k: nat, width: nat)
    requires |data| == 2 && k < 2
  {
    exists i: nat :: i < width && TellingAt(v, data, k, i)
  }

  predicate TellingAt(v: Valuation, data: seq<NexusId>, k: nat, i: nat)
    requires |data| == 2 && k < 2
  {
    BitAt(Get(v, data[0]), i) != BitAt(Get(v, data[1]), i) && BitAt(Get(v, data[k]), i) != Vx
  }

  function Selected(a: Netlist, order: seq<NodeId>, id: NodeId): nat
    requires id in a.nodes && a.nodes[id].Mux?
  { if DrivenValue(a, order, a.nodes[id].sel) == V1 then 1 else 0 }

  /** Another select than `k` gives another bit where the data tell. */
  lemma OtherSelect(v: Valuation, sel: Vec, data: seq<NexusId>, k: nat, i: nat)
    requires |data| == 2 && k < 2 && |sel| == 1 && TellingAt(v, data, k, i)
    requires MuxBit(sel, Values(v, data), i) == BitAt(Get(v, data[k]), i)
    ensures sel == [if k == 1 then V1 else V0]
  {
    assert sel == [sel[0]];
    if Defined(sel) {
      assert ToNat(sel) == if sel[0] == V1 then 1 else 0;
    }
  }

  lemma SelectIsDriven(a: Netlist, order: seq<NodeId>, id: NodeId)
    requires WellFormed(a) && MuxFolds(a, order, id)
    ensures a.nodes[id].sel in a.nexus && a.nexus[a.nodes[id].sel].width == 1
    ensures DrivenVector(a, order, a.nodes[id].sel, |order|) == [if Selected(a, order, id) == 1 then V1 else V0]
  {
    hide WellFormed;
    AllFit(a, id);
    assert a.nodes[id].sel in a.nodes[id].Inputs();
    DrivenWidth(a, order, a.nodes[id].sel, |order|);
  }

  lemma MuxNecessary(a: Netlist, order: seq<NodeId>, id: NodeId, id': NodeId, w: World, v: Valuation)
    requires WellFormed(a) && Lists(a, order) && MuxFolds(a, order, id) && id' !in a.nodes
    requires SoleDriver(a, id, a.nodes[id].q) && Consistent(a, w, v)
    requires Telling(v, a.nodes[id].data, Selected(a, order, id), a.nodes[id].width)
    requires var b := Replaced(a, id, id', FoldedMux(a, order, a.nodes[id]));
      Observed(b, a.nodes[id].q) && Preserves(w, a, b)
    ensures AsDriven(a, w, order, a.nodes[id].sel, |order|)
  {
    hide Consistent, Preserves, WellFormed, DriversConstant, DrivenValue, DrivenVector, CarriedVector;
    hide SoleDriver, SameBut, MuxBit, TellingAt;
    var node := a.nodes[id];
    var q, k, folded := node.q, Selected(a, order, id), FoldedMux(a, order, node);
    var b := Replaced(a, id, id', folded);
    var kept := node.data[k];
    SelectIsDriven(a, order, id);
    assert Opaque(a, q) by { assert q in node.Outputs(); }
    SelfSameBut(a, q);
    ConstantMeaning(a, a, order, q, w, v, node.sel, |order|);
    ConstantWidth(a, w, order, node.sel, |order|);
    var v' := SeenTheSame(w, a, b, v);
    SoleDriverValue(a, w, v, id, q);
    ReplacedSoleDriver(a, id, id', folded, q);
    SoleDriverValue(b, w, v', id', q);
    MuxNexuses(a, id, k);
    assert Get(v, q) == Get(v', q);
    assert Observed(b, kept) by { assert kept in b.nodes[id'].Inputs(); }
    assert Get(v, kept) == Get(v', kept);
    var i: nat :| i < node.width && TellingAt(v, node.data, k, i);
    assert DriverBit(w, v, id, node, 0, i) == MuxBit(Get(v, node.sel), Values(v, node.data), i);
    assert DriverBit(w, v', id', folded, 0, i) == BitAt(Get(v', kept), i);
    OtherSelect(v, Get(v, node.sel), node.data, k, i);
  }

  lemma MuxNexuses(a: Netlist, id: NodeId, k: nat)
    requires WellFormed(a) && id in a.nodes && a.nodes[id].Mux? && k < |a.nodes[id].data|
    ensures a.nodes[id].q in a.nexus && a.nexus[a.nodes[id].q].width == a.nodes[id].width
    ensures a.nodes[id].data[k] in a.nexus
  {
    AllFit(a, id);
    MuxInput(a.nodes[id], k);
    assert a.nodes[id].q in a.nodes[id].Drives();
  }

  /** Main result: the same for a multiplexer whose target is looked at and whose data tell what is selected:
      folding keeps what can be seen exactly when the select carries what the inside drives. */
  lemma MuxFoldExactlyWhen(a: Netlist, order: seq<NodeId>, id: NodeId, id': NodeId, w: World, v: Valuation)
    requires WellFormed(a) && Lists(a, order) && MuxFolds(a, order, id) && id' !in a.nodes
    requires SoleDriver(a, id, a.nodes[id].q) && Consistent(a, w, v)
    requires Telling(v, a.nodes[id].data, Selected(a, order, id), a.nodes[id].width)
    requires Observed(Replaced(a, id, id', FoldedMux(a, order, a.nodes[id])), a.nodes[id].q)
    ensures Preserves(w, a, Replaced(a, id, id', FoldedMux(a, order, a.nodes[id]))) <==>
      AsDriven(a, w, order, a.nodes[id].sel, |order|)
  {
    hide Consistent, Preserves, WellFormed, AsDriven, SoleDriver, Observed, Lists, Telling;
    hide DriversConstant, DrivenValue;
    if AsDriven(a, w, order, a.nodes[id].sel, |order|) { MuxPreserves(a, order, id, id', w); }
    if Preserves(w, a, Replaced(a, id, id', FoldedMux(a, order, a.nodes[id]))) {
      MuxNecessary(a, order, id, id', w, v);
    }
  }

  // ----- deleting a driver that makes no difference -----

  /** Bit `i` of `q` is the same with and without node `id`. */
  ghost predicate SameWithout(a: Netlist, id: NodeId, w: World, v: Valuation, q: NexusId, i: nat)
    requires q in a.nexus
  {
    Pulled(a.nexus[q].signals, Resolved(a, w, v, q, i)) == Pulled(a.nexus[q].signals, Resolved(Drop(a, id), w, v, q, i))
  }

  ghost predicate NoDifference(a: Netlist, id: NodeId, w: World, v: Valuation, q: NexusId)
    requires q in a.nexus
  {
    forall i: nat :: i < a.nexus[q].width ==> SameWithout(a, id, w, v, q, i)
  }

  lemma DropPins(a: Netlist, id: NodeId, q: NexusId, n: NexusId)
    requires id in a.nodes && OnlyOn(a.nodes[id], q) && n != q
    ensures forall x, k :: Pin(a, x, k, n) <==> Pin(Drop(a, id), x, k, n)
  {
  }

  lemma DropElsewhere(a: Netlist, id: NodeId, q: NexusId, w: World, v: Valuation, n: NexusId, i: nat)
    requires id in a.nodes && OnlyOn(a.nodes[id], q) && n != q && n in a.nexus
    ensures Resolved(a, w, v, n, i) == Resolved(Drop(a, id), w, v, n, i)
  {
    hide DriverBit, OnlyOn;
    DropPins(a, id, q, n);
    forall bit ensures Driven(a, w, v, n, i, bit) <==> Driven(Drop(a, id), w, v, n, i, bit) {}
  }

  lemma DropNexus(a: Netlist, id: NodeId, w: World, v: Valuation, n: NexusId)
    requires n in a.nexus && NoDifference(a, id, w, v, n)
    ensures NexusHolds(a, w, v, n) <==> NexusHolds(Drop(a, id), w, v, n)
  {
    hide Resolved, Pulled;
    forall i: nat | i < a.nexus[n].width
      ensures Pulled(a.nexus[n].signals, Resolved(a, w, v, n, i))
           == Pulled(a.nexus[n].signals, Resolved(Drop(a, id), w, v, n, i))
    {
      assert SameWithout(a, id, w, v, n, i);
    }
  }

  /** Then both netlists have the valuation, or neither. */
  lemma DropConsistent(a: Netlist, id: NodeId, q: NexusId, w: World, v: Valuation)
    requires id in a.nodes && OnlyOn(a.nodes[id], q) && q in a.nexus && NoDifference(a, id, w, v, q)
    requires a.nodes[id].Device? ==> HoldsState(w)
    ensures Consistent(a, w, v) <==> Consistent(Drop(a, id), w, v)
  {
    hide Resolved, Pulled;
    var b := Drop(a, id);
    forall n | n in a.nexus ensures NexusHolds(a, w, v, n) <==> NexusHolds(b, w, v, n) {
      forall i: nat | i < a.nexus[n].width ensures SameWithout(a, id, w, v, n, i) {
        if n != q { DropElsewhere(a, id, q, w, v, n, i); }
      }
      DropNexus(a, id, w, v, n);
    }
    assert a.nodes[id].Device? ==> DeviceHolds(w, v, id, a.nodes[id]);
    forall x | x in b.nodes ensures x in a.nodes && b.nodes[x] == a.nodes[x] {}
  }

  lemma SilentDropPreserves(a: Netlist, id: NodeId, q: NexusId, w: World)
    requires id in a.nodes && OnlyOn(a.nodes[id], q) && q in a.nexus && forall v :: NoDifference(a, id, w, v, q)
    requires a.nodes[id].Device? ==> HoldsState(w)
    ensures Preserves(w, a, Drop(a, id))
  {
    hide Consistent, NoDifference, OnlyOn, HoldsState;
    var b := Drop(a, id);
    assert forall n :: HasInput(b, n) ==> HasInput(a, n);
    forall v | Consistent(a, w, v) || Consistent(b, w, v) ensures Carried(w, a, b, v) && Traced(w, a, b, v) {
      DropConsistent(a, id, q, w, v);
      assert Agree(a, b, v, v);
    }
  }

  // ----- deleting a flip-flop that feeds itself -----

  lemma SoleGone(a: Netlist, id: NodeId, q: NexusId)
    requires SoleDriver(a, id, q)
    ensures forall x, k :: !Pin(Drop(a, id), x, k, q)
  {
    forall x, k ensures !Pin(Drop(a, id), x, k, q) { assert Pin(Drop(a, id), x, k, q) ==> Pin(a, x, k, q); }
  }

  lemma SilentFlop(a: Netlist, id: NodeId, q: NexusId, w: World, v: Valuation)
    requires SoleDriver(a, id, q) && SelfFed(a.nodes[id]) && a.nodes[id].outs[0] == q
    requires forall i: nat :: i < a.nexus[q].width ==> BitAt(w.drive(id, 0), i) == Vz
    ensures NoDifference(a, id, w, v, q)
  {
    hide Resolved, Pulled;
    SoleGone(a, id, q);
    forall i: nat | i < a.nexus[q].width ensures SameWithout(a, id, w, v, q, i) {
      SoleDrive(a, w, v, q, i, id, 0);
      DrivenFromOutside(Drop(a, id), w, v, q, i);
    }
  }

  /** Main result: deleting a self-fed flip-flop that alone drives its net keeps what can be seen exactly when
      nothing else looks at the net, or the state of the flip-flop is all z. */
  lemma FlopDropExactlyWhen(a: Netlist, id: NodeId, w: World, v: Valuation)
    requires id in a.nodes && SelfFed(a.nodes[id]) && SoleDriver(a, id, a.nodes[id].outs[0])
    requires HoldsState(w) && Consistent(a, w, v)
    ensures var q := a.nodes[id].outs[0];
      Preserves(w, a, Drop(a, id)) <==>
        !Observed(Drop(a, id), q) || forall i: nat :: i < a.nexus[q].width ==> BitAt(w.drive(id, 0), i) == Vz
  {
    hide Consistent, Preserves, HoldsState, Resolved;
    var b, q := Drop(a, id), a.nodes[id].outs[0];
    if !Observed(b, q) {
      SoleIsNotPassive(a, id, q);
      DropFlopPreserves(a, id, w);
    } else if Preserves(w, a, b) {
      var v' := SeenTheSame(w, a, b, v);
      SoleDriverValue(a, w, v, id, q);
      SoleGone(a, id, q);
      NobodyDrives(b, w, v', q);
      forall i: nat | i < a.nexus[q].width ensures BitAt(w.drive(id, 0), i) == Vz {
        assert BitAt(Get(v, q), i) == BitAt(Get(v', q), i) == Get(v', q)[i];
      }
    }
    if forall i: nat :: i < a.nexus[q].width ==> BitAt(w.drive(id, 0), i) == Vz {
      forall u ensures NoDifference(a, id, w, u, q) { SilentFlop(a, id, q, w, u); }
      SilentDropPreserves(a, id, q, w);
    }
  }

  lemma SoleIsNotPassive(a: Netlist, id: NodeId, q: NexusId)
    requires SoleDriver(a, id, q) && SelfFed(a.nodes[id])
    ensures !HasPassive(a, q)
  {
    forall x | x in a.nodes ensures q !in a.nodes[x].Passive() {
      if q in a.nodes[x].Passive() {
        var j: nat :| j < |a.nodes[x].Passive()| && a.nodes[x].Passive()[j] == q;
        assert Pin(a, x, |a.nodes[x].Outputs()| + j, q);
      }
    }
  }

  // ----- deleting a constant behind a switch -----

  /** Only constants and devices drive `q`: what it carries does not depend on other nexuses. */
  ghost predicate FixedDrivers(a: Netlist, q: NexusId)
  {
    forall x, k :: Pin(a, x, k, q) ==> a.nodes[x].Const? || a.nodes[x].Device?
  }

  lemma FixedResolved(a: Netlist, w: World, v: Valuation, v': Valuation, q: NexusId, i: nat)
    requires FixedDrivers(a, q)
    ensures Resolved(a, w, v, q, i) == Resolved(a, w, v', q, i)
  {
    forall x, k | Pin(a, x, k, q)
      ensures DriverBit(w, v, x, a.nodes[x], k, i) == DriverBit(w, v', x, a.nodes[x], k, i)
    {}
    forall bit ensures Driven(a, w, v, q, i, bit) <==> Driven(a, w, v', q, i, bit) {}
  }

  /** Switches of this kind are on: what they connect carries one value. */
  ghost predicate Connects(w: World, kind: DeviceKind)
  {
    forall ins: seq<Vec>, passive: seq<Vec>, drives: seq<Vec> :: w.behaves(kind, ins, passive, drives) ==>
      forall j, k :: 0 <= j < |passive| && 0 <= k < |passive| ==> passive[j] == passive[k]
  }

  lemma Connected(a: Netlist, w: World, v: Valuation, sw: NodeId, p: NexusId, q: NexusId)
    requires Consistent(a, w, v) && sw in a.nodes && a.nodes[sw].Device? && Connects(w, a.nodes[sw].kind)
    requires p in a.nodes[sw].passive && q in a.nodes[sw].passive
    ensures Get(v, p) == Get(v, q)
  {
    hide NexusHolds;
    var d := a.nodes[sw];
    assert DeviceHolds(w, v, sw, d);
    var j :| 0 <= j < |d.passive| && d.passive[j] == p;
    var k :| 0 <= k < |d.passive| && d.passive[k] == q;
    assert Values(v, d.passive)[j] == Values(v, d.passive)[k];
  }

  lemma DropFixed(a: Netlist, id: NodeId, q: NexusId)
    requires FixedDrivers(a, q)
    ensures FixedDrivers(Drop(a, id), q)
  {
    forall x, k | Pin(Drop(a, id), x, k, q) ensures Drop(a, id).nodes[x].Const? || Drop(a, id).nodes[x].Device? {
      assert Pin(a, x, k, q);
    }
  }

  lemma FixedDifference(a: Netlist, id: NodeId, q: NexusId, w: World, v: Valuation, v': Valuation)
    requires FixedDrivers(a, q) && q in a.nexus && NoDifference(a, id, w, v, q)
    ensures NoDifference(a, id, w, v', q)
  {
    hide Resolved, Pulled, FixedDrivers;
    DropFixed(a, id, q);
    forall i: nat | i < a.nexus[q].width ensures SameWithout(a, id, w, v', q, i) {
      FixedResolved(a, w, v, v', q, i);
      FixedResolved(Drop(a, id), w, v, v', q, i);
      assert SameWithout(a, id, w, v, q, i);
    }
  }

  lemma SwitchShows(a: Netlist, id: NodeId, sw: NodeId, p: NexusId, w: World, v: Valuation)
    requires WellFormed(a) && Dangling(a, id) && FixedDrivers(a, a.nodes[id].q) && Consistent(a, w, v)
    requires sw in a.nodes && a.nodes[sw].Device? && Connects(w, a.nodes[sw].kind)
    requires p in a.nodes[sw].passive && a.nodes[id].q in a.nodes[sw].passive && Observed(Drop(a, id), p)
    requires Preserves(w, a, Drop(a, id))
    ensures NoDifference(a, id, w, v, a.nodes[id].q)
  {
    hide Consistent, Preserves, Resolved, Pulled, FixedDrivers, Connects, WellFormed, Observed;
    var b, q := Drop(a, id), a.nodes[id].q;
    var v' := SeenTheSame(w, a, b, v);
    assert p in a.nexus by { AllFit(a, sw); assert p in a.nodes[sw].Drives(); }
    Connected(a, w, v, sw, p, q);
    Connected(b, w, v', sw, p, q);
    ConsistentAt(a, w, v, q);
    ConsistentAt(b, w, v', q);
    DropFixed(a, id, q);
    forall i: nat | i < a.nexus[q].width ensures SameWithout(a, id, w, v, q, i) {
      FixedResolved(b, w, v, v', q, i);
    }
  }

  /** Main result: a dangling constant whose net a closed switch connects to a net that is looked at can go
      exactly when its own net carries the same without it. The pass does not look at switches. */
  lemma DanglingDropExactlyWhen(a: Netlist, id: NodeId, sw: NodeId, p: NexusId, w: World, v: Valuation)
    requires WellFormed(a) && Dangling(a, id) && FixedDrivers(a, a.nodes[id].q) && Consistent(a, w, v)
    requires sw in a.nodes && a.nodes[sw].Device? && Connects(w, a.nodes[sw].kind)
    requires p in a.nodes[sw].passive && a.nodes[id].q in a.nodes[sw].passive && Observed(Drop(a, id), p)
    ensures Preserves(w, a, Drop(a, id)) <==> NoDifference(a, id, w, v, a.nodes[id].q)
  {
    hide Consistent, Preserves, FixedDrivers, Connects, WellFormed, Observed, NoDifference;
    var q := a.nodes[id].q;
    if Preserves(w, a, Drop(a, id)) { SwitchShows(a, id, sw, p, w, v); }
    if NoDifference(a, id, w, v, q) {
      forall u ensures NoDifference(a, id, w, u, q) { FixedDifference(a, id, q, w, v, u); }
      SilentDropPreserves(a, id, q, w);
    }
  }
}
