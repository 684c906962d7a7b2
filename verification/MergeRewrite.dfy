/** Merging the part selects that drive a vector into one concatenation keeps every consistent valuation. */
module MergeRewrite {
  import opened Logic4
  import opened Netlists
  import opened Rewrites
  import opened Constants
  import opened CpropRewrites

  const PLAIN_WIRE := Signal(Wire, true, 0, 0, NotAPort, false)

  predicate AreParts(a: Netlist, ids: seq<NodeId>, q: NexusId)
  {
    forall j :: 0 <= j < |ids| ==> ids[j] in a.nodes && a.nodes[ids[j]].PartPV? && a.nodes[ids[j]].q == q
  }

  function PartsOf(a: Netlist, ids: seq<NodeId>): (r: seq<Node>)
    requires forall j :: 0 <= j < |ids| ==> ids[j] in a.nodes
    ensures |r| == |ids|
  { seq(|ids|, j requires 0 <= j < |ids| => a.nodes[ids[j]]) }

  function IdSet(ids: seq<NodeId>): set<NodeId> { set id | id in ids }

  predicate Among(n: nat, first: nat, count: nat) { first <= n < first + count }

  /** High-impedance constants `c`, `c + 1`, ... on nexuses `z`, `z + 1`, ..., one for each gap. */
  function ZConsts(gaps: seq<nat>, c: NodeId, z: NexusId): map<NodeId, Node>
  {
    map id: nat | c <= id < c + |gaps| && Among(id, c, |gaps|) :: Const(Fill(Vz, gaps[id - c]), z + (id - c))
  }

  function ZNexuses(gaps: seq<nat>, z: NexusId): map<NexusId, Nexus>
  {
    map n: nat | z <= n < z + |gaps| && Among(n, z, |gaps|) :: Nexus(gaps[n - z], [PLAIN_WIRE])
  }

  function ZIds(gaps: seq<nat>, z: NexusId): set<NexusId> { set n: nat | z <= n < z + |gaps| && Among(n, z, |gaps|) }

  function MergeNodes(parts: seq<Node>, width: nat, q: NexusId, c: NodeId, z: NexusId): map<NodeId, Node>
  {
    ZConsts(Gaps(parts, 0, width), c + 1, z)[c := Concat(width, false, q, Layout(parts, 0, width, z))]
  }

  /** Node and nexus numbers from `c` and `z` on are free. */
  predicate Free(a: Netlist, c: NodeId, z: NexusId)
  {
    (forall id :: id in a.nodes ==> id < c) && (forall n :: n in a.nexus ==> n < z)
  }

  /** `b` is `a` with the part selects `ids` on `q` merged into the concatenation `c`. */
  predicate Merged(a: Netlist, b: Netlist, ids: seq<NodeId>, q: NexusId, c: NodeId, z: NexusId)
  {
    && q in a.nexus && AreParts(a, ids, q)
    && var parts, width := PartsOf(a, ids), a.nexus[q].width;
       && b.nodes == (a.nodes - IdSet(ids)) + MergeNodes(parts, width, q, c, z)
       && b.nexus == a.nexus + ZNexuses(Gaps(parts, 0, width), z)
  }

  /** The part selects can be merged: they are in order, apart, and inside the target. */
  predicate Tiling(a: Netlist, ids: seq<NodeId>, q: NexusId)
  {
    && q in a.nexus && AreParts(a, ids, q)
    && var parts := PartsOf(a, ids);
       AllParts(parts) && Stacked(parts) && Within(parts, 0, a.nexus[q].width)
  }

  // ----- the concatenation reads what the part selects read -----

  lemma {:induction false} LayoutReads(parts: seq<Node>, off: nat, width: nat, z: NexusId, n: NexusId)
    requires AllParts(parts) && n in Layout(parts, off, width, z)
    ensures z <= n < z + |Gaps(parts, off, width)| || exists j :: 0 <= j < |parts| && parts[j].part == n
    decreases |parts|
  {
    if |parts| > 0 {
      var p, tail := parts[0], parts[1..];
      if n == p.part {
        assert parts[0].part == n;
      } else if p.base > off {
        if n != z { LayoutReadsTail(parts, p.base + p.wid, width, z + 1, n); }
      } else {
        LayoutReadsTail(parts, off + p.wid, width, z, n);
      }
    }
  }

  lemma {:induction false} LayoutReadsTail(parts: seq<Node>, off: nat, width: nat, z: NexusId, n: NexusId)
    requires AllParts(parts) && |parts| > 0 && n in Layout(parts[1..], off, width, z)
    ensures z <= n < z + |Gaps(parts[1..], off, width)| || exists j :: 0 <= j < |parts| && parts[j].part == n
    decreases |parts|, 0
  {
    LayoutReads(parts[1..], off, width, z, n);
    if j :| 0 <= j < |parts[1..]| && parts[1..][j].part == n { assert parts[j + 1].part == n; }
  }

  lemma MergeAdds(a: Netlist, ids: seq<NodeId>, q: NexusId, c: NodeId, z: NexusId, id: NodeId)
    requires Tiling(a, ids, q)
    requires id in MergeNodes(PartsOf(a, ids), a.nexus[q].width, q, c, z)
    ensures var parts := PartsOf(a, ids);
      var gaps := Gaps(parts, 0, a.nexus[q].width);
      AddedNode(a, MergeNodes(parts, a.nexus[q].width, q, c, z)[id], IdSet(ids), ZIds(gaps, z), q)
  {
    hide Layout, Gaps, Stacked, Within;
    var parts, width := PartsOf(a, ids), a.nexus[q].width;
    var gaps := Gaps(parts, 0, width);
    if id != c {
      assert z + (id - c - 1) in ZIds(gaps, z) by { assert Among(z + (id - c - 1), z, |gaps|); }
    } else {
      forall n | n in Layout(parts, 0, width, z)
        ensures n in ZIds(Gaps(parts, 0, width), z)
             || exists x :: x in IdSet(ids) && x in a.nodes && n in a.nodes[x].Inputs()
      {
        LayoutReads(parts, 0, width, z, n);
        if j :| 0 <= j < |parts| && parts[j].part == n {
          assert ids[j] in ids && n in a.nodes[ids[j]].Inputs();
        }
      }
    }
  }

  lemma MergeSwaps(a: Netlist, b: Netlist, ids: seq<NodeId>, q: NexusId, c: NodeId, z: NexusId)
    requires WellFormed(a) && Tiling(a, ids, q) && Free(a, c, z) && Merged(a, b, ids, q, c, z)
    ensures var parts, width := PartsOf(a, ids), a.nexus[q].width;
      Swapped(a, b, IdSet(ids), MergeNodes(parts, width, q, c, z), ZIds(Gaps(parts, 0, width), z), q)
  {
    hide WellFormed, AddedNode, AllParts, Stacked, Within, Layout, Gaps;
    var parts, width := PartsOf(a, ids), a.nexus[q].width;
    var added := MergeNodes(parts, width, q, c, z);
    var new_ := ZIds(Gaps(parts, 0, width), z);
    forall id | id in added ensures id !in a.nodes && AddedNode(a, added[id], IdSet(ids), new_, q) {
      MergeAdds(a, ids, q, c, z, id);
    }
  }

  // ----- and drives what they drove -----

  lemma GoneDrivesParts(a: Netlist, ids: seq<NodeId>, q: NexusId, w: World, v: Valuation, i: nat, bit: V)
    requires AreParts(a, ids, q)
    ensures GoneDrives(a, IdSet(ids), w, v, i, bit) <==>
      exists j :: 0 <= j < |ids| && DriverBit(w, v, 0, PartsOf(a, ids)[j], 0, i) == bit
  {
    var parts := PartsOf(a, ids);
    if GoneDrives(a, IdSet(ids), w, v, i, bit) {
      var id :| id in ids && id in a.nodes && DriverBit(w, v, id, a.nodes[id], 0, i) == bit;
      var j :| 0 <= j < |ids| && ids[j] == id;
      assert DriverBit(w, v, 0, parts[j], 0, i) == bit;
    }
    if j :| 0 <= j < |ids| && DriverBit(w, v, 0, parts[j], 0, i) == bit {
      assert ids[j] in IdSet(ids) && DriverBit(w, v, ids[j], a.nodes[ids[j]], 0, i) == bit;
    }
  }

  lemma AddedDrivesJoin(parts: seq<Node>, width: nat, q: NexusId, c: NodeId, z: NexusId, w: World, v: Valuation,
                        i: nat, bit: V)
    requires q < z
    ensures AddedDrives(MergeNodes(parts, width, q, c, z), q, w, v, i, bit) <==>
      BitAt(Join(v, Layout(parts, 0, width, z)), i) == bit
  {
    hide Layout, Gaps, Join;
    var added := MergeNodes(parts, width, q, c, z);
    assert DriverBit(w, v, c, added[c], 0, i) == BitAt(Join(v, Layout(parts, 0, width, z)), i);
    assert added[c].q == q;
    forall id | id in added && id != c ensures added[id].Const? && added[id].q != q {}
  }

  lemma MergeSameDrive(a: Netlist, ids: seq<NodeId>, q: NexusId, c: NodeId, z: NexusId, w: World, v: Valuation,
                       v': Valuation)
    requires Tiling(a, ids, q) && q < z
    requires Carries(PartsOf(a, ids), 0, a.nexus[q].width, z, v')
    requires forall j :: 0 <= j < |ids| ==> Get(v, a.nodes[ids[j]].part) == Get(v', a.nodes[ids[j]].part)
    ensures SameDrive(a, IdSet(ids), MergeNodes(PartsOf(a, ids), a.nexus[q].width, q, c, z), q, w, v, v')
  {
    hide Layout, Gaps, Join, Carries, MergeNodes, GoneDrives, AddedDrives, Pick, Stacked, Within;
    var parts, width := PartsOf(a, ids), a.nexus[q].width;
    LayoutTiles(parts, 0, width, z, v');
    forall i: nat, bit: V | i < width && bit != Vz
      ensures GoneDrives(a, IdSet(ids), w, v, i, bit)
        <==> AddedDrives(MergeNodes(parts, width, q, c, z), q, w, v', i, bit)
    {
      GoneDrivesParts(a, ids, q, w, v', i, bit);
      GoneDrivesFrame(a, ids, q, w, v, v', i, bit);
      AddedDrivesJoin(parts, width, q, c, z, w, v', i, bit);
      PickIsDriver(parts, v', w, 0, i, bit);
      assert BitAt(Join(v', Layout(parts, 0, width, z)), i - 0) == Pick(parts, v', i);
    }
  }

  lemma GoneDrivesFrame(a: Netlist, ids: seq<NodeId>, q: NexusId, w: World, v: Valuation, v': Valuation, i: nat, bit: V)
    requires AreParts(a, ids, q)
    requires forall j :: 0 <= j < |ids| ==> Get(v, a.nodes[ids[j]].part) == Get(v', a.nodes[ids[j]].part)
    ensures GoneDrives(a, IdSet(ids), w, v, i, bit) <==> GoneDrives(a, IdSet(ids), w, v', i, bit)
  {
    forall id | id in ids ensures DriverBit(w, v, id, a.nodes[id], 0, i) == DriverBit(w, v', id, a.nodes[id], 0, i) {}
  }

  // ----- in every consistent valuation of either netlist -----

  lemma PartNexus(a: Netlist, ids: seq<NodeId>, q: NexusId, j: nat)
    requires WellFormed(a) && AreParts(a, ids, q) && j < |ids|
    ensures a.nodes[ids[j]].part in a.nexus && a.nexus[a.nodes[ids[j]].part].width == a.nodes[ids[j]].wid
  {
    assert NodeFits(a, a.nodes[ids[j]]);
    assert a.nodes[ids[j]].part in a.nodes[ids[j]].Inputs();
  }

  /** Both netlists, their part nexuses and their new nexuses, read by a valuation of the second. */
  lemma MergeCarries(a: Netlist, b: Netlist, ids: seq<NodeId>, q: NexusId, c: NodeId, z: NexusId, v': Valuation)
    requires WellFormed(a) && Tiling(a, ids, q) && Merged(a, b, ids, q, c, z)
    requires forall n :: n in a.nexus ==> |Get(v', n)| == a.nexus[n].width
    requires forall n :: n in ZIds(Gaps(PartsOf(a, ids), 0, a.nexus[q].width), z) ==>
      Get(v', n) == Fill(Vz, b.nexus[n].width)
    ensures Carries(PartsOf(a, ids), 0, a.nexus[q].width, z, v')
  {
    hide WellFormed, Gaps, Stacked, Within, AllParts, MergeNodes;
    var parts, width := PartsOf(a, ids), a.nexus[q].width;
    forall j | 0 <= j < |parts| ensures |Get(v', parts[j].part)| == parts[j].wid { PartNexus(a, ids, q, j); }
    forall j | 0 <= j < |Gaps(parts, 0, width)| ensures Get(v', z + j) == Fill(Vz, Gaps(parts, 0, width)[j]) {
      assert z + j in ZIds(Gaps(parts, 0, width), z);
    }
  }

  lemma ConsistentWidths(a: Netlist, w: World, v: Valuation)
    requires Consistent(a, w, v)
    ensures v.Keys == a.nexus.Keys && forall n :: n in a.nexus ==> |Get(v, n)| == a.nexus[n].width
  {
    forall n | n in a.nexus ensures |Get(v, n)| == a.nexus[n].width { assert NexusHolds(a, w, v, n); }
  }

  lemma MergeForward(a: Netlist, b: Netlist, ids: seq<NodeId>, q: NexusId, c: NodeId, z: NexusId, w: World,
                     v: Valuation)
    requires WellFormed(a) && Tiling(a, ids, q) && Free(a, c, z) && Merged(a, b, ids, q, c, z) && Consistent(a, w, v)
    ensures SameDrive(a, IdSet(ids), MergeNodes(PartsOf(a, ids), a.nexus[q].width, q, c, z), q, w, v, Lift(b, v))
  {
    hide WellFormed, Consistent, MergeNodes, Gaps, Carries, SameDrive, AllParts, Stacked, Within;
    ConsistentWidths(a, w, v);
    forall j | 0 <= j < |ids| ensures Get(v, a.nodes[ids[j]].part) == Get(Lift(b, v), a.nodes[ids[j]].part) {
      PartNexus(a, ids, q, j);
    }
    MergeCarries(a, b, ids, q, c, z, Lift(b, v));
    MergeSameDrive(a, ids, q, c, z, w, v, Lift(b, v));
  }

  lemma MergeBackward(a: Netlist, b: Netlist, ids: seq<NodeId>, q: NexusId, c: NodeId, z: NexusId, w: World,
                      v': Valuation)
    requires WellFormed(a) && Tiling(a, ids, q) && Free(a, c, z) && Merged(a, b, ids, q, c, z) && Consistent(b, w, v')
    ensures SameDrive(a, IdSet(ids), MergeNodes(PartsOf(a, ids), a.nexus[q].width, q, c, z), q, w, Restrict(a, v'), v')
  {
    hide WellFormed, Consistent, MergeNodes, Gaps, Carries, SameDrive, AllParts, Stacked, Within, Swapped;
    ConsistentWidths(b, w, v');
    MergeSwaps(a, b, ids, q, c, z);
    var parts, width := PartsOf(a, ids), a.nexus[q].width;
    forall j | 0 <= j < |ids| ensures Get(Restrict(a, v'), a.nodes[ids[j]].part) == Get(v', a.nodes[ids[j]].part) {
      PartNexus(a, ids, q, j);
    }
    forall n | n in ZIds(Gaps(parts, 0, width), z) ensures Get(v', n) == Fill(Vz, b.nexus[n].width) {
      ConsistentZ(a, b, IdSet(ids), MergeNodes(parts, width, q, c, z), ZIds(Gaps(parts, 0, width), z), q, w, v', n);
    }
    MergeCarries(a, b, ids, q, c, z, v');
    MergeSameDrive(a, ids, q, c, z, w, Restrict(a, v'), v');
  }

  lemma ConsistentZ(a: Netlist, b: Netlist, gone: set<NodeId>, added: map<NodeId, Node>, new_: set<NexusId>, q: NexusId,
                    w: World, v': Valuation, n: NexusId)
    requires Swapped(a, b, gone, added, new_, q) && Consistent(b, w, v') && n in new_
    ensures n in b.nexus && Get(v', n) == Fill(Vz, b.nexus[n].width)
  {
    hide NexusHolds, WellFormed;
    assert NexusHolds(b, w, v', n);
    NewNexusIsZ(a, b, gone, added, new_, q, w, v', n);
  }

  /** Main result: merging keeps every consistent valuation. */
  lemma MergePreserves(a: Netlist, b: Netlist, ids: seq<NodeId>, q: NexusId, c: NodeId, z: NexusId, w: World)
    requires WellFormed(a) && Tiling(a, ids, q) && Free(a, c, z) && Merged(a, b, ids, q, c, z)
    ensures Preserves(w, a, b)
  {
    hide WellFormed, Consistent, MergeNodes, Gaps, SameDrive, AllParts, Stacked, Within, Swapped, Preserves;
    var parts, width := PartsOf(a, ids), a.nexus[q].width;
    var gone, added, new_ := IdSet(ids), MergeNodes(parts, width, q, c, z), ZIds(Gaps(parts, 0, width), z);
    MergeSwaps(a, b, ids, q, c, z);
    forall v | Consistent(a, w, v) ensures SameDrive(a, gone, added, q, w, v, Lift(b, v)) {
      MergeForward(a, b, ids, q, c, z, w, v);
    }
    forall v' | Consistent(b, w, v') ensures SameDrive(a, gone, added, q, w, Restrict(a, v'), v') {
      MergeBackward(a, b, ids, q, c, z, w, v');
    }
    SwapPreserves(a, b, gone, added, new_, q, w);
  }
}
