/** What constant propagation has to find and to rewrite, said of the fields of nodes and signals. */
module CpropDuties {
  import opened Logic4
  import opened Netlists
  import opened Rewrites
  import opened Constants
  import opened CpropRewrites
  import opened MergeRewrite
  import opened Designs
  import opened CpropSteps
  import opened DanglingConstants

  // ----- nets that carry a constant -----

  /** Wires that no process assigns and the outside cannot drive. */
  predicate PlainWires(signals: seq<Signal>)
  {
    forall s :: s in signals ==>
      s.kind.Wire? && s.lref == 0 && !(s.inRoot && (s.port.InputPort? || s.port.InoutPort?))
  }

  /** Node `id` is the one driver of `n`. */
  ghost predicate OneDriver(a: Netlist, n: NexusId, id: NodeId)
  {
    && n in a.nexus && PlainWires(a.nexus[n].signals)
    && Pin(a, id, 0, n) && forall x: NodeId, k: nat :: Pin(a, x, k, n) ==> x == id && k == 0
  }

  ghost predicate HoldsConstant(a: Netlist, n: NexusId, id: NodeId) { OneDriver(a, n, id) && a.nodes[id].Const? }

  lemma {:induction false} PlainSignals(signals: seq<Signal>)
    requires PlainWires(signals)
    ensures PullCount(signals) == 0 && !SomeVariable(signals)
  {
    if |signals| > 0 {
      PlainSignals(signals[1..]);
      assert signals == [signals[0]] + signals[1..];
    }
  }

  lemma PassiveIsPin(a: Netlist, n: NexusId)
    requires HasPassive(a, n)
    ensures exists x: NodeId, k: nat :: Pin(a, x, k, n) && a.nodes[x].Device?
  {
    var x :| x in a.nodes && n in a.nodes[x].Passive();
    var j: nat :| j < |a.nodes[x].Passive()| && a.nodes[x].Passive()[j] == n;
    assert Pin(a, x, |a.nodes[x].Outputs()| + j, n);
  }

  lemma {:induction false} DistinctOutLinks(nodes: map<NodeId, Node>, order: seq<NodeId>, q: NexusId)
    requires Distinct(order)
    ensures Distinct(OutLinks(nodes, order, q))
  {
    hide OnList;
    if |order| > 0 {
      DistinctOutLinks(nodes, order[1..], q);
      OutLinksMeaning(nodes, order[1..], q, order[0]);
      assert order[0] !in order[1..];
    }
  }

  lemma SoleOutLink(a: Netlist, order: seq<NodeId>, n: NexusId, id: NodeId)
    requires OnList(a.nodes, order) && OneDriver(a, n, id) && !a.nodes[id].Device?
    ensures OutLinks(a.nodes, order, n) == [id] && !HasPassive(a, n)
  {
    var ds := OutLinks(a.nodes, order, n);
    DistinctOutLinks(a.nodes, order, n);
    assert |ds| > 1 ==> ds[0] != ds[1];
    OutLinksMeaning(a.nodes, order, n, id);
    forall j | 0 <= j < |ds| ensures ds[j] == id {
      OutLinksMeaning(a.nodes, order, n, ds[j]);
      var outs := a.nodes[ds[j]].Outputs();
      var k: nat :| k < |outs| && outs[k] == n;
      assert Pin(a, ds[j], k, n);
    }
    assert Pin(a, id, 0, n);
    assert a.nodes[id].Outputs() == a.nodes[id].Drives();
    assert id in ds;
    if HasPassive(a, n) { PassiveIsPin(a, n); }
  }

  /** Main result: a net with one constant as its driver is found constant, with that vector. */
  lemma ConstantIsFound(a: Netlist, order: seq<NodeId>, n: NexusId, id: NodeId, fuel: nat)
    requires OnList(a.nodes, order) && HoldsConstant(a, n, id)
    ensures DriversConstant(a, order, n, fuel) && DrivenVector(a, order, n, fuel) == a.nodes[id].value
    ensures DrivenValue(a, order, n) == BitAt(a.nodes[id].value, 0)
  {
    hide OnList, OneDriver;
    DriverExists(a, n, id);
    PlainSignals(a.nexus[n].signals);
    SoleOutLink(a, order, n, id);
  }

  lemma HeldExists(a: Netlist, n: NexusId, id: NodeId)
    requires HoldsConstant(a, n, id)
    ensures id in a.nodes && a.nodes[id].Const?
  {
  }

  lemma DriverExists(a: Netlist, n: NexusId, id: NodeId)
    requires OneDriver(a, n, id)
    ensures n in a.nexus && PlainWires(a.nexus[n].signals) && id in a.nodes
  {
  }

  /** So is one that a substitution of constants drives: the part laid over the whole. */
  lemma SubstituteIsFound(a: Netlist, order: seq<NodeId>, n: NexusId, id: NodeId, fuel: nat)
    requires OnList(a.nodes, order) && OneDriver(a, n, id) && a.nodes[id].Substitute?
    requires DriversConstant(a, order, a.nodes[id].whole, fuel) && DriversConstant(a, order, a.nodes[id].part, fuel)
    ensures DriversConstant(a, order, n, fuel + 1)
    ensures DrivenVector(a, order, n, fuel + 1) == Overlay(DrivenVector(a, order, a.nodes[id].whole, fuel),
                                                           DrivenVector(a, order, a.nodes[id].part, fuel),
                                                           a.nodes[id].base)
  {
    hide OnList;
    DriverExists(a, n, id);
    PlainSignals(a.nexus[n].signals);
    SoleOutLink(a, order, n, id);
  }

  lemma NoOutLink(a: Netlist, order: seq<NodeId>, n: NexusId)
    requires forall x: NodeId, k: nat :: !Pin(a, x, k, n)
    ensures OutLinks(a.nodes, order, n) == [] && !HasPassive(a, n)
  {
    NoOutLinks(a, order, n);
    if HasPassive(a, n) { PassiveIsPin(a, n); }
  }

  /** And one that nothing drives: z, or what its one pull gives. */
  lemma UndrivenIsFound(a: Netlist, order: seq<NodeId>, n: NexusId, fuel: nat)
    requires n in a.nexus && forall x: NodeId, k: nat :: !Pin(a, x, k, n)
    ensures PlainWires(a.nexus[n].signals) ==>
      && DriversConstant(a, order, n, fuel) && DrivenVector(a, order, n, fuel) == Fill(Vz, a.nexus[n].width)
      && DrivenValue(a, order, n) == Vz
    ensures |a.nexus[n].signals| == 1 && a.nexus[n].signals[0].lref == 0 ==>
      var kind := a.nexus[n].signals[0].kind;
      && (kind.Supply0? || kind.Tri0? ==>
            && DriversConstant(a, order, n, fuel) && DrivenVector(a, order, n, fuel) == Fill(V0, a.nexus[n].width)
            && DrivenValue(a, order, n) == V0)
      && (kind.Supply1? || kind.Tri1? ==>
            && DriversConstant(a, order, n, fuel) && DrivenVector(a, order, n, fuel) == Fill(V1, a.nexus[n].width)
            && DrivenValue(a, order, n) == V1)
  {
    NoOutLink(a, order, n);
    var signals := a.nexus[n].signals;
    if PlainWires(signals) { PlainSignals(signals); }
    if |signals| == 1 {
      assert signals[1..] == [] && signals == [signals[0]];
      assert forall s :: s in signals <==> s == signals[0];
    }
  }

  /** Main result: the value read of a net found constant, unless a substitution drives it, is the first bit it
      carries, in every valuation that leaves it as driven. */
  lemma ValueIsCarried(a: Netlist, order: seq<NodeId>, q: NexusId, w: World, v: Valuation, n: NexusId, fuel: nat)
    requires WellFormed(a) && Lists(a, order) && Opaque(a, q) && Consistent(a, w, v)
    requires DriversConstant(a, order, n, fuel) && AsDriven(a, w, order, n, fuel) && a.nexus[n].width > 0
    requires forall x :: x in a.nodes && n in a.nodes[x].Outputs() ==> !a.nodes[x].Substitute?
    ensures DrivenValue(a, order, n) == BitAt(Get(v, n), 0)
  {
    hide Consistent, WellFormed, Opaque, Lists, CarriedVector;
    forall x | x in a.nexus && x != q ensures SamePins(a, a, x) { PinsSame(a, x); }
    ConstantMeaning(a, a, order, q, w, v, n, fuel);
    DrivenWidth(a, order, n, fuel);
    var ds := OutLinks(a.nodes, order, n);
    if |ds| > 0 {
      assert ds[0] in ds;
      OutLinksMeaning(a.nodes, order, n, ds[0]);
    }
  }

  // ----- what has to be rewritten -----

  /** A multiplexer with a constant select. */
  lemma MuxMustFold(a: Netlist, order: seq<NodeId>, id: NodeId, c: NodeId)
    requires WellFormed(a) && OnList(a.nodes, order) && id in a.nodes && a.nodes[id].Mux?
    requires |a.nodes[id].data| == 2 && a.nodes[id].selWidth == 1 && HoldsConstant(a, a.nodes[id].sel, c)
    ensures |a.nodes[c].value| == 1
    ensures MuxFolds(a, order, id) <==> a.nodes[c].value[0] == V0 || a.nodes[c].value[0] == V1
    ensures MuxFolds(a, order, id) ==>
      FoldedMux(a, order, a.nodes[id])
        == Bufz(a.nodes[id].width, a.nodes[id].q, a.nodes[id].data[if a.nodes[c].value == [V1] then 1 else 0])
  {
    hide OnList, WellFormed, DriversConstant, DrivenValue;
    ConstantIsFound(a, order, a.nodes[id].sel, c, |order|);
    AllFit(a, id);
    AllFit(a, c);
    assert a.nodes[c].Drives() == [a.nodes[c].q];
    assert a.nodes[id].sel in a.nodes[id].Inputs();
    assert a.nodes[c].value == [a.nodes[c].value[0]];
  }

  ghost predicate PartsHoldConstants(a: Netlist, id: NodeId)
    requires id in a.nodes && a.nodes[id].Concat?
  {
    forall p :: p in a.nodes[id].parts ==> exists c :: HoldsConstant(a, p, c)
  }

  lemma ConcatMustFold(a: Netlist, order: seq<NodeId>, id: NodeId)
    requires OnList(a.nodes, order) && id in a.nodes && a.nodes[id].Concat? && !a.nodes[id].transparent
    requires PartsHoldConstants(a, id)
    ensures ConcatFolds(a, order, id)
  {
    hide OnList, DriversConstant, HoldsConstant;
    forall p | p in a.nodes[id].parts ensures DriversConstant(a, order, p, |order|) {
      var c :| HoldsConstant(a, p, c);
      ConstantIsFound(a, order, p, c, |order|);
    }
  }

  /** Each part's constant stands at the offset that the parts before it make. */
  ghost predicate JoinsConstants(a: Netlist, id: NodeId, value: Vec)
    requires id in a.nodes && a.nodes[id].Concat?
  {
    && |value| == a.nodes[id].width
    && forall k, c :: 0 <= k < |a.nodes[id].parts| && HoldsConstant(a, a.nodes[id].parts[k], c) ==>
         c in a.nodes && StandsAt(value, TotalWidth(a, a.nodes[id].parts[..k]), a.nodes[c].value)
  }

  predicate StandsAt(value: Vec, at: nat, bits: Vec) { at + |bits| <= |value| && value[at..at + |bits|] == bits }

  lemma {:induction false} JoinedAt(a: Netlist, order: seq<NodeId>, parts: seq<NexusId>, fuel: nat, k: nat)
    requires forall p :: p in parts ==>
      p in a.nexus && DriversConstant(a, order, p, fuel) && |DrivenVector(a, order, p, fuel)| == a.nexus[p].width
    requires k < |parts|
    ensures StandsAt(JoinDriven(a, order, parts, fuel), TotalWidth(a, parts[..k]),
                     DrivenVector(a, order, parts[k], fuel))
  {
    hide DriversConstant, DrivenVector;
    if k > 0 {
      JoinedAt(a, order, parts[1..], fuel, k - 1);
      assert parts[..k] == [parts[0]] + parts[1..][..k - 1];
    }
  }

  /** Main result: the constant that replaces a concatenation of constants holds each of them in its place. */
  lemma FoldedBits(a: Netlist, order: seq<NodeId>, id: NodeId)
    requires WellFormed(a) && OnList(a.nodes, order) && id in a.nodes && a.nodes[id].Concat?
    requires PartsHoldConstants(a, id)
    ensures JoinsConstants(a, id, FoldedConcat(a, order, a.nodes[id]).value)
  {
    hide OnList, WellFormed, DriversConstant, DrivenVector, JoinDriven, StandsAt, OneDriver;
    var parts, fuel := a.nodes[id].parts, |order|;
    AllFit(a, id);
    forall p | p in parts
      ensures p in a.nexus && DriversConstant(a, order, p, fuel)
      ensures |DrivenVector(a, order, p, fuel)| == a.nexus[p].width
    {
      var c :| HoldsConstant(a, p, c);
      ConstantIsFound(a, order, p, c, fuel);
      DrivenWidth(a, order, p, fuel);
    }
    JoinDrivenWidth(a, order, parts, fuel);
    forall k, c | 0 <= k < |parts| && HoldsConstant(a, parts[k], c)
      ensures c in a.nodes && StandsAt(JoinDriven(a, order, parts, fuel), TotalWidth(a, parts[..k]), a.nodes[c].value)
    {
      HeldExists(a, parts[k], c);
      ConstantIsFound(a, order, parts[k], c, fuel);
      JoinedAt(a, order, parts, fuel, k);
    }
  }

  /** Part selects, two or more, are all that is linked to `q` as an output; no two meet, and none runs off the end. */
  ghost predicate PartsTile(a: Netlist, q: NexusId)
  {
    && q in a.nexus && (forall s :: s in a.nexus[q].signals ==> s.kind.Wire?)
    && (forall x :: x in a.nodes && q in a.nodes[x].Outputs() ==>
          a.nodes[x].PartPV? && a.nodes[x].base + a.nodes[x].wid <= a.nexus[q].width)
    && (exists x, y :: x != y && PartOn(a, x, q) && PartOn(a, y, q))
    && forall x, y :: x != y && PartOn(a, x, q) && PartOn(a, y, q) ==>
         || a.nodes[x].base + a.nodes[x].wid <= a.nodes[y].base
         || a.nodes[y].base + a.nodes[y].wid <= a.nodes[x].base
  }

  predicate PartOn(a: Netlist, x: NodeId, q: NexusId) { x in a.nodes && a.nodes[x].PartPV? && a.nodes[x].q == q }

  /** Main result: part selects are merged exactly then. */
  lemma PartsMustMerge(a: Netlist, order: seq<NodeId>, q: NexusId)
    requires OnList(a.nodes, order)
    ensures Mergeable(a, order, q) <==> PartsTile(a, q)
  {
    var ids := OutLinks(a.nodes, order, q);
    forall x ensures x in ids <==> x in a.nodes && q in a.nodes[x].Outputs() { OutLinksMeaning(a.nodes, order, q, x); }
    DistinctOutLinks(a.nodes, order, q);
    if q in a.nexus {
      if Mergeable(a, order, q) { MergeableTiles(a, order, q, ids); }
      if PartsTile(a, q) { TilingMerges(a, order, q, ids); }
    }
  }

  lemma MergeableTiles(a: Netlist, order: seq<NodeId>, q: NexusId, ids: seq<NodeId>)
    requires Mergeable(a, order, q) && ids == OutLinks(a.nodes, order, q) && Distinct(ids)
    requires forall x :: x in ids <==> x in a.nodes && q in a.nodes[x].Outputs()
    ensures PartsTile(a, q)
  {
    forall x | x in a.nodes && q in a.nodes[x].Outputs()
      ensures a.nodes[x].PartPV? && a.nodes[x].base + a.nodes[x].wid <= a.nexus[q].width
    {
      assert x in ids;
    }
    assert PartOn(a, ids[0], q) && PartOn(a, ids[1], q) && ids[0] != ids[1];
    forall x, y | x != y && PartOn(a, x, q) && PartOn(a, y, q)
      ensures a.nodes[x].base + a.nodes[x].wid <= a.nodes[y].base || a.nodes[y].base + a.nodes[y].wid <= a.nodes[x].base
    {
      assert x in ids && y in ids;
      var j :| 0 <= j < |ids| && ids[j] == x;
      var k :| 0 <= k < |ids| && ids[k] == y;
      assert !Overlap(a.nodes[ids[if j < k then j else k]], a.nodes[ids[if j < k then k else j]]);
    }
  }

  lemma TilingMerges(a: Netlist, order: seq<NodeId>, q: NexusId, ids: seq<NodeId>)
    requires PartsTile(a, q) && ids == OutLinks(a.nodes, order, q) && Distinct(ids)
    requires forall x :: x in ids <==> x in a.nodes && q in a.nodes[x].Outputs()
    ensures Mergeable(a, order, q)
  {
    forall j | 0 <= j < |ids|
      ensures PartOn(a, ids[j], q) && a.nodes[ids[j]].base + a.nodes[ids[j]].wid <= a.nexus[q].width
    {
      assert ids[j] in ids;
    }
    var x, y :| x != y && PartOn(a, x, q) && PartOn(a, y, q);
    assert x in ids && y in ids;
    forall j, k | 0 <= j < k < |ids| ensures !Overlap(a.nodes[ids[j]], a.nodes[ids[k]]) {}
    assert |ids| >= 2;
    assert !HasOutput(a.nexus[q].signals);
  }

  /** The signal keeps a constant on its net: it has a name in the source, an expression reads it, or it is a port
      of the root. */
  predicate Keeps(s: Signal) { !s.local || s.eref > 0 || (!s.port.NotAPort? && s.inRoot) }

  /** The constant is all z, or no node reads its net and no signal keeps it. */
  predicate Useless(a: Netlist, id: NodeId)
    requires id in a.nodes && a.nodes[id].Const? && a.nodes[id].q in a.nexus
  {
    || (forall i :: 0 <= i < |a.nodes[id].value| ==> a.nodes[id].value[i] == Vz)
    || ((forall x :: x in a.nodes ==> a.nodes[id].q !in a.nodes[x].Inputs())
        && forall s :: s in a.nexus[a.nodes[id].q].signals ==> !Keeps(s))
  }

  lemma DanglingIsUseless(a: Netlist, id: NodeId)
    requires id in a.nodes && a.nodes[id].Const? && a.nodes[id].q in a.nexus
    ensures Useless(a, id) <==> AllZ(a.nodes[id].value) || Dangling(a, id)
  {
  }
}
