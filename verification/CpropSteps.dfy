/** The three counted rewrites of constant propagation as steps on netlists: when each applies, that it keeps
    the netlist well formed and its observable valuations, and that it uses up a rewritable node. */
module CpropSteps {
  import opened Logic4
  import opened Netlists
  import opened Rewrites
  import opened Constants
  import opened CpropRewrites
  import opened MergeRewrite

  // ----- when a node can be rewritten -----

  predicate ConcatFolds(a: Netlist, order: seq<NodeId>, id: NodeId)
  {
    && id in a.nodes && a.nodes[id].Concat? && !a.nodes[id].transparent
    && forall p :: p in a.nodes[id].parts ==> DriversConstant(a, order, p, |order|)
  }

  predicate MuxFolds(a: Netlist, order: seq<NodeId>, id: NodeId)
  {
    && id in a.nodes && a.nodes[id].Mux? && |a.nodes[id].data| == 2 && a.nodes[id].selWidth == 1
    && DriversConstant(a, order, a.nodes[id].sel, |order|) && IsDefinedBit(DrivenValue(a, order, a.nodes[id].sel))
  }

  /** The signal's link is an output: it pulls, or holds its value. */
  predicate HasOutput(signals: seq<Signal>) { exists s :: s in signals && !s.kind.Wire? }

  predicate Apart(a: Netlist, ids: seq<NodeId>)
    requires forall j :: 0 <= j < |ids| ==> ids[j] in a.nodes && a.nodes[ids[j]].PartPV?
  {
    forall j, k :: 0 <= j < k < |ids| ==> !Overlap(a.nodes[ids[j]], a.nodes[ids[k]])
  }

  predicate Inside(a: Netlist, ids: seq<NodeId>, width: nat)
    requires forall j :: 0 <= j < |ids| ==> ids[j] in a.nodes && a.nodes[ids[j]].PartPV?
  {
    forall j :: 0 <= j < |ids| ==> a.nodes[ids[j]].base + a.nodes[ids[j]].wid <= width
  }

  /** The nexus is driven by two or more part selects and nothing else, no two overlap, and none runs
      off the end. */
  predicate Mergeable(a: Netlist, order: seq<NodeId>, q: NexusId)
  {
    && q in a.nexus && !HasOutput(a.nexus[q].signals)
    && var ids := OutLinks(a.nodes, order, q);
       |ids| >= 2 && AreParts(a, ids, q) && Apart(a, ids) && Inside(a, ids, a.nexus[q].width)
  }

  predicate PartsMerge(a: Netlist, order: seq<NodeId>, id: NodeId)
  {
    id in a.nodes && a.nodes[id].PartPV? && Mergeable(a, order, a.nodes[id].q)
  }

  predicate CanRewrite(a: Netlist, order: seq<NodeId>, id: NodeId)
  {
    ConcatFolds(a, order, id) || MuxFolds(a, order, id) || PartsMerge(a, order, id)
  }

  // ----- the steps -----

  function Replaced(a: Netlist, id: NodeId, id': NodeId, node: Node): Netlist
  {
    Netlist((a.nodes - {id}) + map[id' := node], a.nexus)
  }

  function FoldedConcat(a: Netlist, order: seq<NodeId>, node: Node): Node
    requires node.Concat?
  {
    Const(JoinDriven(a, order, node.parts, |order|), node.q)
  }

  function FoldedMux(a: Netlist, order: seq<NodeId>, node: Node): Node
    requires node.Mux? && |node.data| == 2
  {
    Bufz(node.width, node.q, node.data[if DrivenValue(a, order, node.sel) == V1 then 1 else 0])
  }

  /** The observable valuations are the same, however devices behave and whatever is driven from outside. */
  ghost predicate Equivalent(a: Netlist, b: Netlist) { forall w: World :: Preserves(w, a, b) }

  /** A bound on the number of rewrites still possible. */
  function Rewritable(node: Node): bool { node.PartPV? || node.Concat? || node.Mux? }

  function RewritableNodes(a: Netlist): set<NodeId> { set id | id in a.nodes && Rewritable(a.nodes[id]) }

  function Measure(a: Netlist): nat { |RewritableNodes(a)| }

  /** Every net with a switch on it can be seen. */
  predicate SwitchesSeen(a: Netlist)
  {
    forall n :: n in a.nexus && HasPassive(a, n) ==> a.nexus[n].IsSeen()
  }

  predicate NoSelfFed(a: Netlist) { forall id :: id in a.nodes ==> !SelfFed(a.nodes[id]) }

  /** What no rewrite spoils. */
  ghost predicate Kept(a: Netlist, b: Netlist)
  {
    && (SwitchesSeen(a) ==> SwitchesSeen(b))
    && (QuietPorts(a) ==> QuietPorts(b))
    && (NoSelfFed(a) ==> NoSelfFed(b))
  }

  /** One rewrite: what every caller of a step may rely on. */
  ghost predicate Step(a: Netlist, b: Netlist)
  {
    WellFormed(b) && (QuietPorts(a) ==> Equivalent(a, b)) && Measure(b) < Measure(a) && Kept(a, b)
  }

  lemma EquivalentReflexive(a: Netlist)
    ensures Equivalent(a, a)
  {
    hide Preserves;
    forall w: World ensures Preserves(w, a, a) { PreservesReflexive(w, a); }
  }

  lemma EquivalentTransitive(a: Netlist, b: Netlist, c: Netlist)
    requires Equivalent(a, b) && Equivalent(b, c)
    ensures Equivalent(a, c)
  {
    hide Preserves;
    forall w: World ensures Preserves(w, a, c) { PreservesTransitive(w, a, b, c); }
  }

  // ----- well-formedness -----

  predicate Includes(a: Netlist, b: Netlist) { forall n :: n in a.nexus ==> n in b.nexus && b.nexus[n] == a.nexus[n] }

  lemma {:induction false} SameTotalWidth(a: Netlist, b: Netlist, ns: seq<NexusId>)
    requires Includes(a, b) && forall n :: n in ns ==> n in a.nexus
    ensures TotalWidth(a, ns) == TotalWidth(b, ns)
  {
    if |ns| > 0 { SameTotalWidth(a, b, ns[1..]); }
  }

  lemma StillFits(a: Netlist, b: Netlist, node: Node)
    requires Includes(a, b) && NodeFits(a, node)
    ensures NodeFits(b, node)
  {
    match node {
      case Concat(_, _, q, parts) =>
        assert q in node.Drives();
        SameTotalWidth(a, b, parts);
      case Const(_, q) => assert q in node.Drives();
      case Mux(_, _, q, sel, data) =>
        assert q in node.Drives() && sel in node.Inputs();
        forall d | d in data ensures d in node.Inputs() {}
      case Bufz(_, q, d) => assert q in node.Drives() && d in node.Inputs();
      case PartPV(_, _, part, q) => assert q in node.Drives() && part in node.Inputs();
      case Substitute(_, _, q, whole, part) =>
        assert q in node.Drives() && whole in node.Inputs() && part in node.Inputs();
      case Device(_, _, _, _) =>
    }
  }

  lemma SwapWellFormed(a: Netlist, b: Netlist, gone: set<NodeId>, added: map<NodeId, Node>)
    requires WellFormed(a) && Includes(a, b) && b.nodes == (a.nodes - gone) + added
    requires forall id :: id in added ==> NodeFits(b, added[id])
    requires forall n :: n in b.nexus && n !in a.nexus ==> |b.nexus[n].signals| > 0
    ensures WellFormed(b)
  {
    hide NodeFits;
    forall id | id in b.nodes ensures NodeFits(b, b.nodes[id]) {
      if id !in added { StillFits(a, b, a.nodes[id]); }
    }
  }

  /** The devices of `b` and its nexuses come from `a`, but for new plain wires. */
  predicate SameDevices(a: Netlist, b: Netlist)
  {
    && Includes(a, b)
    && (forall id :: id in b.nodes && b.nodes[id].Device? ==> id in a.nodes && a.nodes[id] == b.nodes[id])
    && (forall n :: n in b.nexus && n !in a.nexus ==> IsPlainWire(b.nexus[n]))
  }

  lemma KeptBySameDevices(a: Netlist, b: Netlist)
    requires SameDevices(a, b) && WellFormed(a)
    ensures Kept(a, b)
  {
    hide WellFormed;
    if SwitchesSeen(a) {
      forall n | n in b.nexus && HasPassive(b, n) ensures b.nexus[n].IsSeen() {
        var id :| id in b.nodes && n in b.nodes[id].Passive();
        AllFit(a, id);
        assert n in a.nodes[id].Drives();
        assert HasPassive(a, n);
      }
    }
    if QuietPorts(a) {
      forall n | n in b.nexus ensures !SomePullingPort(b.nexus[n].signals) {
        assert n in a.nexus || IsPlainWire(b.nexus[n]);
      }
    }
  }

  // ----- folding is a step -----

  lemma ReplacedMeasure(a: Netlist, id: NodeId, id': NodeId, node: Node)
    requires id in a.nodes && Rewritable(a.nodes[id]) && !Rewritable(node) && id' !in a.nodes
    ensures Measure(Replaced(a, id, id', node)) < Measure(a)
  {
    assert RewritableNodes(Replaced(a, id, id', node)) == RewritableNodes(a) - {id};
  }

  lemma ConcatFits(a: Netlist, order: seq<NodeId>, id: NodeId)
    requires WellFormed(a) && ConcatFolds(a, order, id)
    ensures NodeFits(a, FoldedConcat(a, order, a.nodes[id]))
  {
    AllFit(a, id);
    JoinDrivenWidth(a, order, a.nodes[id].parts, |order|);
    assert a.nodes[id].q in a.nodes[id].Drives();
  }

  lemma {:induction false} JoinDrivenWidth(a: Netlist, order: seq<NodeId>, parts: seq<NexusId>, fuel: nat)
    requires WellFormed(a) && forall p :: p in parts ==> DriversConstant(a, order, p, fuel)
    ensures |JoinDriven(a, order, parts, fuel)| == TotalWidth(a, parts)
  {
    hide WellFormed, DriversConstant, DrivenVector;
    if |parts| > 0 {
      DrivenWidth(a, order, parts[0], fuel);
      JoinDrivenWidth(a, order, parts[1..], fuel);
    }
  }

  lemma ReplacedStep(a: Netlist, id: NodeId, id': NodeId, node: Node)
    requires WellFormed(a) && id in a.nodes && Rewritable(a.nodes[id]) && !Rewritable(node) && id' !in a.nodes
    requires !node.Device? && NodeFits(a, node) && (QuietPorts(a) ==> Equivalent(a, Replaced(a, id, id', node)))
    ensures Step(a, Replaced(a, id, id', node))
  {
    hide Equivalent, WellFormed, NodeFits, Kept, QuietPorts;
    var b := Replaced(a, id, id', node);
    StillFits(a, b, node);
    SwapWellFormed(a, b, {id}, map[id' := node]);
    ReplacedMeasure(a, id, id', node);
    KeptBySameDevices(a, b);
  }

  /** Folding a concatenation keeps what can be seen in every world that leaves its inputs alone. */
  lemma ConcatPreserves(a: Netlist, order: seq<NodeId>, id: NodeId, id': NodeId, w: World)
    requires WellFormed(a) && Lists(a, order) && ConcatFolds(a, order, id) && id' !in a.nodes
    requires forall p :: p in a.nodes[id].parts ==> AsDriven(a, w, order, p, |order|)
    ensures Preserves(w, a, Replaced(a, id, id', FoldedConcat(a, order, a.nodes[id])))
  {
    hide WellFormed, Preserves, DriversConstant, AsDriven, JoinDriven;
    FoldConcatPreserves(a, Replaced(a, id, id', FoldedConcat(a, order, a.nodes[id])), order, id, id', |order|, w);
  }

  lemma ConcatStep(a: Netlist, order: seq<NodeId>, id: NodeId, id': NodeId)
    requires WellFormed(a) && Lists(a, order) && ConcatFolds(a, order, id) && id' !in a.nodes
    ensures Step(a, Replaced(a, id, id', FoldedConcat(a, order, a.nodes[id])))
  {
    hide WellFormed, Preserves, DriversConstant, NodeFits, JoinDriven, AsDriven, QuietPorts;
    var b := Replaced(a, id, id', FoldedConcat(a, order, a.nodes[id]));
    ConcatFits(a, order, id);
    if QuietPorts(a) {
      forall w: World ensures Preserves(w, a, b) {
        forall p | p in a.nodes[id].parts ensures AsDriven(a, w, order, p, |order|) {
          QuietIsDriven(a, w, order, p, |order|);
        }
        ConcatPreserves(a, order, id, id', w);
      }
    }
    ReplacedStep(a, id, id', FoldedConcat(a, order, a.nodes[id]));
  }

  lemma MuxPreserves(a: Netlist, order: seq<NodeId>, id: NodeId, id': NodeId, w: World)
    requires WellFormed(a) && Lists(a, order) && MuxFolds(a, order, id) && id' !in a.nodes
    requires AsDriven(a, w, order, a.nodes[id].sel, |order|)
    ensures Preserves(w, a, Replaced(a, id, id', FoldedMux(a, order, a.nodes[id])))
  {
    hide WellFormed, Preserves, DriversConstant, DrivenValue, AsDriven;
    FoldMuxPreserves(a, Replaced(a, id, id', FoldedMux(a, order, a.nodes[id])), order, id, id', |order|, w);
  }

  lemma MuxStep(a: Netlist, order: seq<NodeId>, id: NodeId, id': NodeId)
    requires WellFormed(a) && Lists(a, order) && MuxFolds(a, order, id) && id' !in a.nodes
    ensures Step(a, Replaced(a, id, id', FoldedMux(a, order, a.nodes[id])))
  {
    hide WellFormed, Preserves, DriversConstant, DrivenValue, AsDriven, QuietPorts;
    var node := a.nodes[id];
    var b := Replaced(a, id, id', FoldedMux(a, order, node));
    AllFit(a, id);
    var k := if DrivenValue(a, order, node.sel) == V1 then 1 else 0;
    MuxInput(node, k);
    assert node.q in node.Drives();
    if QuietPorts(a) {
      forall w: World ensures Preserves(w, a, b) {
        QuietIsDriven(a, w, order, node.sel, |order|);
        MuxPreserves(a, order, id, id', w);
      }
    }
    ReplacedStep(a, id, id', FoldedMux(a, order, node));
  }

  // ----- merging is a step -----

  lemma {:induction false} JoinWidth(b: Netlist, v: Valuation, ns: seq<NexusId>)
    requires forall n :: n in ns ==> n in b.nexus && |Get(v, n)| == b.nexus[n].width
    ensures |Join(v, ns)| == TotalWidth(b, ns)
  {
    if |ns| > 0 { JoinWidth(b, v, ns[1..]); }
  }

  function Undriven(b: Netlist): Valuation { map n | n in b.nexus :: Fill(Vz, b.nexus[n].width) }

  lemma LayoutExists(a: Netlist, b: Netlist, ids: seq<NodeId>, q: NexusId, c: NodeId, z: NexusId, n: NexusId)
    requires WellFormed(a) && Tiling(a, ids, q) && Free(a, c, z) && Merged(a, b, ids, q, c, z)
    requires n in Layout(PartsOf(a, ids), 0, a.nexus[q].width, z)
    ensures n in b.nexus
  {
    hide WellFormed, Layout, Gaps, Stacked, Within, MergeNodes;
    var parts, width := PartsOf(a, ids), a.nexus[q].width;
    LayoutReads(parts, 0, width, z, n);
    if j :| 0 <= j < |parts| && parts[j].part == n { PartNexus(a, ids, q, j); }
    else { assert Among(n, z, |Gaps(parts, 0, width)|); }
  }

  lemma MergedConcatFits(a: Netlist, b: Netlist, ids: seq<NodeId>, q: NexusId, c: NodeId, z: NexusId)
    requires WellFormed(a) && Tiling(a, ids, q) && Free(a, c, z) && Merged(a, b, ids, q, c, z)
    ensures NodeFits(b, Concat(a.nexus[q].width, false, q, Layout(PartsOf(a, ids), 0, a.nexus[q].width, z)))
  {
    hide WellFormed, Layout, Gaps, Stacked, Within, MergeNodes, Carries, AllParts;
    var parts, width := PartsOf(a, ids), a.nexus[q].width;
    var ns := Layout(parts, 0, width, z);
    forall n | n in ns ensures n in b.nexus { LayoutExists(a, b, ids, q, c, z, n); }
    MergeCarries(a, b, ids, q, c, z, Undriven(b));
    LayoutTiles(parts, 0, width, z, Undriven(b));
    JoinWidth(b, Undriven(b), ns);
  }

  lemma MergedWellFormed(a: Netlist, b: Netlist, ids: seq<NodeId>, q: NexusId, c: NodeId, z: NexusId)
    requires WellFormed(a) && Tiling(a, ids, q) && Free(a, c, z) && Merged(a, b, ids, q, c, z)
    ensures WellFormed(b)
  {
    hide WellFormed, Layout, Gaps, Tiling;
    assert q in a.nexus by { assert Merged(a, b, ids, q, c, z); }
    var parts, width := PartsOf(a, ids), a.nexus[q].width;
    var added := MergeNodes(parts, width, q, c, z);
    forall id | id in added ensures NodeFits(b, added[id]) {
      if id == c {
        MergedConcatFits(a, b, ids, q, c, z);
      } else {
        assert Among(z + (id - c - 1), z, |Gaps(parts, 0, width)|);
      }
    }
    SwapWellFormed(a, b, IdSet(ids), added);
  }

  lemma {:induction false} DistinctIds(ids: seq<NodeId>)
    requires forall j, k :: 0 <= j < k < |ids| ==> ids[j] != ids[k]
    ensures |IdSet(ids)| == |ids|
  {
    if |ids| > 0 {
      DistinctIds(ids[1..]);
      assert IdSet(ids) == {ids[0]} + IdSet(ids[1..]);
      assert ids[0] !in ids[1..];
    } else {
      assert IdSet(ids) == {};
    }
  }

  lemma MergedMeasure(a: Netlist, b: Netlist, ids: seq<NodeId>, q: NexusId, c: NodeId, z: NexusId)
    requires Free(a, c, z) && Merged(a, b, ids, q, c, z) && |ids| >= 2
    requires forall j, k :: 0 <= j < k < |ids| ==> ids[j] != ids[k]
    ensures Measure(b) < Measure(a)
  {
    hide Gaps, Layout;
    DistinctIds(ids);
    var parts, width := PartsOf(a, ids), a.nexus[q].width;
    var added := MergeNodes(parts, width, q, c, z);
    assert c in added && Rewritable(added[c]);
    assert forall id :: id in added && id != c ==> !Rewritable(added[id]);
    assert RewritableNodes(b) == (RewritableNodes(a) - IdSet(ids)) + {c};
    assert IdSet(ids) <= RewritableNodes(a);
  }

  /** Main result: merging keeps the netlist well formed and its valuations, and uses up two part selects or
      more for one concatenation. */
  lemma MergeStep(a: Netlist, b: Netlist, ids: seq<NodeId>, q: NexusId, c: NodeId, z: NexusId)
    requires WellFormed(a) && Tiling(a, ids, q) && Free(a, c, z) && Merged(a, b, ids, q, c, z) && |ids| >= 2
    requires forall j, k :: 0 <= j < k < |ids| ==> ids[j] != ids[k]
    ensures Step(a, b)
  {
    hide WellFormed, Preserves, Tiling, Gaps, Layout, Kept, QuietPorts;
    MergedWellFormed(a, b, ids, q, c, z);
    MergedMeasure(a, b, ids, q, c, z);
    forall w: World ensures Preserves(w, a, b) { MergePreserves(a, b, ids, q, c, z, w); }
    KeptBySameDevices(a, b);
  }

  // ----- sorting the drivers -----

  predicate SortedByBase(a: Netlist, ids: seq<NodeId>)
    requires forall j :: 0 <= j < |ids| ==> ids[j] in a.nodes && a.nodes[ids[j]].PartPV?
  {
    forall j, k :: 0 <= j < k < |ids| ==> a.nodes[ids[j]].base <= a.nodes[ids[k]].base
  }

  /** `sorted` is `ids` in another order; the conditions on pairs do not depend on the order. */
  lemma SortedApart(a: Netlist, ids: seq<NodeId>, sorted: seq<NodeId>, q: NexusId)
    requires AreParts(a, ids, q) && AreParts(a, sorted, q) && Permuted(ids, sorted)
    ensures Apart(a, ids) <==> Apart(a, sorted)
  {
    if Apart(a, ids) { ApartPermuted(a, ids, sorted, q); }
    if Apart(a, sorted) { ApartPermuted(a, sorted, ids, q); }
  }

  /** Same elements, none twice. */
  ghost predicate Permuted(x: seq<NodeId>, y: seq<NodeId>)
  {
    && |x| == |y|
    && (forall j, k :: 0 <= j < k < |x| ==> x[j] != x[k])
    && (forall j, k :: 0 <= j < k < |y| ==> y[j] != y[k])
    && (forall id :: id in x <==> id in y)
  }

  lemma ApartPermuted(a: Netlist, x: seq<NodeId>, y: seq<NodeId>, q: NexusId)
    requires AreParts(a, x, q) && AreParts(a, y, q) && Permuted(x, y) && Apart(a, x)
    ensures Apart(a, y)
  {
    forall j, k | 0 <= j < k < |y| ensures !Overlap(a.nodes[y[j]], a.nodes[y[k]]) {
      assert y[j] in x && y[k] in x;
      var j' :| 0 <= j' < |x| && x[j'] == y[j];
      var k' :| 0 <= k' < |x| && x[k'] == y[k];
      assert j' < k' || k' < j';
    }
  }

  /** Looking at neighbours and at the last part decides whether the sorted part selects can be merged. */
  lemma TilingWhenSorted(a: Netlist, ids: seq<NodeId>, q: NexusId)
    requires WellFormed(a) && q in a.nexus && AreParts(a, ids, q) && SortedByBase(a, ids) && |ids| > 0
    ensures AllParts(PartsOf(a, ids))
    ensures Stacked(PartsOf(a, ids)) <==> Apart(a, ids)
    ensures Stacked(PartsOf(a, ids)) ==>
      (Within(PartsOf(a, ids), 0, a.nexus[q].width) <==> Inside(a, ids, a.nexus[q].width))
  {
    hide WellFormed;
    var parts := PartsOf(a, ids);
    forall j | 0 <= j < |ids| ensures a.nodes[ids[j]].wid > 0 { PartWidthPositive(a, ids[j]); }
    StackedIsDisjoint(parts);
    assert Disjoint(parts) <==> Apart(a, ids) by {
      if Apart(a, ids) {
        forall j, k | 0 <= j < k < |parts| ensures !Overlap(parts[j], parts[k]) { assert parts[j] == a.nodes[ids[j]]; }
      }
      if Disjoint(parts) {
        forall j, k | 0 <= j < k < |ids| ensures !Overlap(a.nodes[ids[j]], a.nodes[ids[k]]) {
          assert !Overlap(parts[j], parts[k]);
        }
      }
    }
    if Stacked(parts) {
      forall j | 0 <= j < |ids| - 1 ensures parts[j].base + parts[j].wid <= parts[|parts| - 1].base {
        StackedFar(parts, j, |parts| - 1);
      }
      assert forall j :: 0 <= j < |ids| ==> parts[j] == a.nodes[ids[j]];
    }
  }

  lemma PartWidthPositive(a: Netlist, id: NodeId)
    requires WellFormed(a) && id in a.nodes && a.nodes[id].PartPV?
    ensures a.nodes[id].wid > 0
  {
    AllFit(a, id);
  }
}
