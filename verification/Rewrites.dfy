/** Replacing nodes of a netlist, and the constants its nexuses are known to carry: the facts
    the constant-propagation rewrites rest on. */
module Rewrites {
  import opened Logic4
  import opened Netlists

  // ----- replacing the drivers of one nexus -----

  predicate IsPlainWire(x: Nexus) { x.signals == [Signal(Wire, true, 0, 0, NotAPort, false)] }

  predicate AllZ(v: Vec) { forall i :: 0 <= i < |v| ==> v[i] == Vz }

  predicate GoneNode(a: Netlist, id: NodeId, q: NexusId)
  {
    id in a.nodes && !a.nodes[id].Device? && a.nodes[id].q == q
  }

  /** A node that was added: a driver of `q` reading what the removed nodes read, or a high-impedance
      constant on a new nexus. */
  predicate AddedNode(a: Netlist, node: Node, gone: set<NodeId>, new_: set<NexusId>, q: NexusId)
  {
    && !node.Device? && (node.q == q || (node.q in new_ && node.Const? && AllZ(node.value)))
    && forall n :: n in node.Inputs() ==>
         n in new_ || exists id :: id in gone && id in a.nodes && n in a.nodes[id].Inputs()
  }

  /** `b` is `a` with the nodes `gone`, which drove `q`, replaced by `added`, on top of new nexuses. */
  predicate Swapped(a: Netlist, b: Netlist, gone: set<NodeId>, added: map<NodeId, Node>, new_: set<NexusId>, q: NexusId)
  {
    && WellFormed(a) && q in a.nexus
    && (forall id :: id in gone ==> GoneNode(a, id, q))
    && (forall id :: id in added ==> id !in a.nodes && AddedNode(a, added[id], gone, new_, q))
    && b.nodes == (a.nodes - gone) + added
    && (forall n :: n in new_ ==> n !in a.nexus && n in b.nexus && IsPlainWire(b.nexus[n]))
    && b.nexus.Keys == a.nexus.Keys + new_
    && (forall n :: n in a.nexus ==> b.nexus[n] == a.nexus[n])
  }

  /** `v'` extends `v` to the new nexuses, which carry z. */
  predicate Lifts(a: Netlist, b: Netlist, v: Valuation, v': Valuation)
  {
    && v.Keys == a.nexus.Keys && v'.Keys == b.nexus.Keys
    && (forall n :: n in a.nexus ==> n in b.nexus && v[n] == v'[n])
    && (forall n :: n in b.nexus && n !in a.nexus ==> v'[n] == Fill(Vz, b.nexus[n].width))
  }

  ghost predicate GoneDrives(a: Netlist, gone: set<NodeId>, w: World, v: Valuation, i: nat, b: V)
  {
    exists id :: id in gone && id in a.nodes && DriverBit(w, v, id, a.nodes[id], 0, i) == b
  }

  ghost predicate AddedDrives(added: map<NodeId, Node>, q: NexusId, w: World, v: Valuation, i: nat, b: V)
  {
    exists id :: id in added && !added[id].Device? && added[id].q == q && DriverBit(w, v, id, added[id], 0, i) == b
  }

  /** The added nodes drive the same bits onto `q` as the removed ones. */
  ghost predicate SameDrive(a: Netlist, gone: set<NodeId>, added: map<NodeId, Node>, q: NexusId,
                            w: World, v: Valuation, v': Valuation)
    requires q in a.nexus
  {
    forall i: nat, b: V :: i < a.nexus[q].width && b != Vz ==>
      (GoneDrives(a, gone, w, v, i, b) <==> AddedDrives(added, q, w, v', i, b))
  }

  lemma {:induction false} JoinFrame(v: Valuation, v': Valuation, parts: seq<NexusId>)
    requires forall n :: n in parts ==> Get(v, n) == Get(v', n)
    ensures Join(v, parts) == Join(v', parts)
  {
    if |parts| > 0 { JoinFrame(v, v', parts[1..]); }
  }

  /** A driver only depends on what its node reads. */
  lemma DriverFrame(w: World, v: Valuation, v': Valuation, id: NodeId, node: Node, k: nat, i: nat)
    requires forall n :: n in node.Inputs() ==> Get(v, n) == Get(v', n)
    ensures DriverBit(w, v, id, node, k, i) == DriverBit(w, v', id, node, k, i)
  {
    match node {
      case Concat(_, _, _, parts) => JoinFrame(v, v', parts);
      case Mux(_, _, _, sel, data) =>
        assert sel in node.Inputs();
        forall d | d in data ensures Get(v, d) == Get(v', d) { assert d in node.Inputs(); }
        assert Values(v, data) == Values(v', data);
      case Bufz(_, _, d) => assert d in node.Inputs();
      case PartPV(_, _, part, _) => assert part in node.Inputs();
      case Substitute(_, _, _, whole, part) => assert whole in node.Inputs() && part in node.Inputs();
      case _ =>
    }
  }

  lemma KeptDriver(a: Netlist, b: Netlist, w: World, v: Valuation, v': Valuation, id: NodeId, k: nat, i: nat)
    requires WellFormed(a) && Lifts(a, b, v, v') && id in a.nodes && id in b.nodes && a.nodes[id] == b.nodes[id]
    ensures DriverBit(w, v, id, a.nodes[id], k, i) == DriverBit(w, v', id, b.nodes[id], k, i)
  {
    var node := a.nodes[id];
    assert NodeFits(a, node);
    forall n | n in node.Inputs() ensures Get(v, n) == Get(v', n) { assert n in a.nexus; }
    DriverFrame(w, v, v', id, node, k, i);
  }

  lemma DrivenBefore(a: Netlist, b: Netlist, gone: set<NodeId>, added: map<NodeId, Node>, new_: set<NexusId>,
                     q: NexusId, w: World, v: Valuation, v': Valuation, n: NexusId, i: nat, bit: V)
    requires Swapped(a, b, gone, added, new_, q) && Lifts(a, b, v, v') && SameDrive(a, gone, added, q, w, v, v')
    requires n in a.nexus && i < a.nexus[n].width && bit != Vz
    requires Driven(a, w, v, n, i, bit)
    ensures Driven(b, w, v', n, i, bit)
  {
    hide WellFormed, DriverBit, AllZ, AddedNode;
    if !(a.nexus[n].IsOpen() && BitAt(w.outside(n), i) == bit) {
      var id, k :| Pin(a, id, k, n) && DriverBit(w, v, id, a.nodes[id], k, i) == bit;
      if id in gone {
        assert GoneNode(a, id, q);
        assert k == 0 && n == q;
        assert GoneDrives(a, gone, w, v, i, bit);
        var id' :| id' in added && !added[id'].Device? && added[id'].q == q
          && DriverBit(w, v', id', added[id'], 0, i) == bit;
        assert Pin(b, id', 0, n);
      } else {
        KeptDriver(a, b, w, v, v', id, k, i);
        assert Pin(b, id, k, n);
      }
    }
  }

  lemma DrivenAfter(a: Netlist, b: Netlist, gone: set<NodeId>, added: map<NodeId, Node>, new_: set<NexusId>, q: NexusId,
                   w: World, v: Valuation, v': Valuation, n: NexusId, i: nat, bit: V)
    requires Swapped(a, b, gone, added, new_, q) && Lifts(a, b, v, v') && SameDrive(a, gone, added, q, w, v, v')
    requires n in a.nexus && i < a.nexus[n].width && bit != Vz
    requires Driven(b, w, v', n, i, bit)
    ensures Driven(a, w, v, n, i, bit)
  {
    hide WellFormed, DriverBit, AllZ;
    if !(a.nexus[n].IsOpen() && BitAt(w.outside(n), i) == bit) {
      var id, k :| Pin(b, id, k, n) && DriverBit(w, v', id, b.nodes[id], k, i) == bit;
      if id in added {
        assert AddedNode(a, added[id], gone, new_, q);
        assert k == 0 && n == q;
        assert AddedDrives(added, q, w, v', i, bit);
        assert GoneDrives(a, gone, w, v, i, bit);
        var id' :| id' in gone && id' in a.nodes && DriverBit(w, v, id', a.nodes[id'], 0, i) == bit;
        assert GoneNode(a, id', q);
        assert Pin(a, id', 0, n);
      } else {
        KeptDriver(a, b, w, v, v', id, k, i);
        assert Pin(a, id, k, n);
      }
    }
  }

  /** On every old nexus the same bits are driven before and after. */
  lemma SameDriven(a: Netlist, b: Netlist, gone: set<NodeId>, added: map<NodeId, Node>, new_: set<NexusId>, q: NexusId,
                   w: World, v: Valuation, v': Valuation, n: NexusId, i: nat, bit: V)
    requires Swapped(a, b, gone, added, new_, q) && Lifts(a, b, v, v') && SameDrive(a, gone, added, q, w, v, v')
    requires n in a.nexus && i < a.nexus[n].width && bit != Vz
    ensures Driven(a, w, v, n, i, bit) <==> Driven(b, w, v', n, i, bit)
  {
    hide Driven, SameDrive, Swapped, Lifts;
    if Driven(a, w, v, n, i, bit) { DrivenBefore(a, b, gone, added, new_, q, w, v, v', n, i, bit); }
    if Driven(b, w, v', n, i, bit) { DrivenAfter(a, b, gone, added, new_, q, w, v, v', n, i, bit); }
  }

  lemma SameNexus(a: Netlist, b: Netlist, gone: set<NodeId>, added: map<NodeId, Node>, new_: set<NexusId>, q: NexusId,
                  w: World, v: Valuation, v': Valuation, n: NexusId)
    requires Swapped(a, b, gone, added, new_, q) && Lifts(a, b, v, v') && SameDrive(a, gone, added, q, w, v, v')
    requires n in a.nexus
    ensures NexusHolds(a, w, v, n) <==> NexusHolds(b, w, v', n)
  {
    hide Driven, SameDrive, Pulled, WellFormed;
    forall i: nat | i < a.nexus[n].width ensures Resolved(a, w, v, n, i) == Resolved(b, w, v', n, i) {
      SameDriven(a, b, gone, added, new_, q, w, v, v', n, i, V0);
      SameDriven(a, b, gone, added, new_, q, w, v, v', n, i, V1);
      SameDriven(a, b, gone, added, new_, q, w, v, v', n, i, Vx);
    }
  }

  lemma OldPins(a: Netlist, n: NexusId)
    requires WellFormed(a)
    ensures forall id, k :: Pin(a, id, k, n) ==> n in a.nexus
  {
    forall id, k | Pin(a, id, k, n) ensures n in a.nexus {
      assert NodeFits(a, a.nodes[id]);
      assert n in a.nodes[id].Drives();
    }
  }

  /** Only the added constants drive a new nexus. */
  lemma NewNexusDrivers(a: Netlist, b: Netlist, gone: set<NodeId>, added: map<NodeId, Node>, new_: set<NexusId>,
                        q: NexusId, n: NexusId, id: NodeId, k: nat)
    requires Swapped(a, b, gone, added, new_, q) && n in new_ && Pin(b, id, k, n)
    ensures b.nodes[id].Const? && AllZ(b.nodes[id].value)
  {
    hide WellFormed, AllZ;
    OldPins(a, n);
    assert !Pin(a, id, k, n);
    assert id in added && AddedNode(a, added[id], gone, new_, q);
  }

  /** A new nexus carries z and nothing else. */
  lemma NewNexusIsZ(a: Netlist, b: Netlist, gone: set<NodeId>, added: map<NodeId, Node>, new_: set<NexusId>, q: NexusId,
                    w: World, v': Valuation, n: NexusId)
    requires Swapped(a, b, gone, added, new_, q) && n in new_ && n in v'
    ensures NexusHolds(b, w, v', n) <==> v'[n] == Fill(Vz, b.nexus[n].width)
  {
    forall id, k, i: nat | Pin(b, id, k, n) ensures DriverBit(w, v', id, b.nodes[id], k, i) == Vz {
      NewNexusDrivers(a, b, gone, added, new_, q, n, id, k);
    }
    assert !b.nexus[n].IsOpen();
    forall i: nat ensures Resolved(b, w, v', n, i) == Vz {}
    assert Pulled(b.nexus[n].signals, Vz) == Vz;
    if NexusHolds(b, w, v', n) {
      forall i: nat | i < |v'[n]| ensures v'[n][i] == Vz { assert BitAt(Get(v', n), i) == Vz; }
    }
  }

  lemma SameDevice(a: Netlist, b: Netlist, w: World, v: Valuation, v': Valuation, id: NodeId)
    requires WellFormed(a) && Lifts(a, b, v, v') && id in a.nodes && a.nodes[id].Device?
    ensures DeviceHolds(w, v, id, a.nodes[id]) <==> DeviceHolds(w, v', id, a.nodes[id])
  {
    var d := a.nodes[id];
    assert NodeFits(a, d);
    forall n | n in d.ins ensures Get(v, n) == Get(v', n) { assert n in d.Inputs(); }
    forall n | n in d.passive ensures Get(v, n) == Get(v', n) { assert n in d.Drives(); }
    assert Values(v, d.ins) == Values(v', d.ins);
    assert Values(v, d.passive) == Values(v', d.passive);
  }

  lemma NoDeviceSwapped(a: Netlist, b: Netlist, gone: set<NodeId>, added: map<NodeId, Node>, new_: set<NexusId>,
                        q: NexusId, id: NodeId)
    requires Swapped(a, b, gone, added, new_, q)
    ensures id in gone ==> !a.nodes[id].Device?
    ensures id in added ==> !added[id].Device?
  {
    hide WellFormed;
    assert id in gone ==> GoneNode(a, id, q);
    assert id in added ==> AddedNode(a, added[id], gone, new_, q);
  }

  /** The two netlists have the same consistent valuations, up to the new nexuses. */
  lemma SwapConsistent(a: Netlist, b: Netlist, gone: set<NodeId>, added: map<NodeId, Node>, new_: set<NexusId>,
                       q: NexusId, w: World, v: Valuation, v': Valuation)
    requires Swapped(a, b, gone, added, new_, q) && Lifts(a, b, v, v') && SameDrive(a, gone, added, q, w, v, v')
    ensures Consistent(a, w, v) <==> Consistent(b, w, v')
  {
    hide NexusHolds, DeviceHolds, SameDrive, WellFormed;
    forall n | n in a.nexus ensures NexusHolds(a, w, v, n) <==> NexusHolds(b, w, v', n) {
      SameNexus(a, b, gone, added, new_, q, w, v, v', n);
    }
    forall n | n in new_ ensures NexusHolds(b, w, v', n) {
      NewNexusIsZ(a, b, gone, added, new_, q, w, v', n);
    }
    forall id | id in a.nodes && a.nodes[id].Device?
      ensures id in b.nodes && b.nodes[id] == a.nodes[id]
      ensures DeviceHolds(w, v, id, a.nodes[id]) <==> DeviceHolds(w, v', id, a.nodes[id])
    {
      NoDeviceSwapped(a, b, gone, added, new_, q, id);
      SameDevice(a, b, w, v, v', id);
    }
    forall id | id in b.nodes && b.nodes[id].Device? ensures id in a.nodes && a.nodes[id] == b.nodes[id] {
      NoDeviceSwapped(a, b, gone, added, new_, q, id);
    }
  }

  lemma SwapExtends(a: Netlist, b: Netlist, gone: set<NodeId>, added: map<NodeId, Node>, new_: set<NexusId>, q: NexusId)
    requires Swapped(a, b, gone, added, new_, q)
    ensures Extends(a, b)
  {
    forall n | n in a.nexus && HasInput(b, n) ensures HasInput(a, n) {
      var id :| id in b.nodes && n in b.nodes[id].Inputs();
      if id in added {
        assert AddedNode(a, added[id], gone, new_, q);
        var g :| g in gone && g in a.nodes && n in a.nodes[g].Inputs();
      } else {
        assert id in a.nodes && n in a.nodes[id].Inputs();
      }
    }
  }

  function Lift(b: Netlist, v: Valuation): Valuation
  {
    map n | n in b.nexus :: if n in v then v[n] else Fill(Vz, b.nexus[n].width)
  }

  function Restrict(a: Netlist, v': Valuation): Valuation { map n | n in a.nexus && n in v' :: v'[n] }

  lemma SwapCarried(a: Netlist, b: Netlist, gone: set<NodeId>, added: map<NodeId, Node>, new_: set<NexusId>, q: NexusId,
                    w: World, v: Valuation)
    requires Swapped(a, b, gone, added, new_, q) && Consistent(a, w, v)
    requires SameDrive(a, gone, added, q, w, v, Lift(b, v))
    ensures Carried(w, a, b, v)
  {
    hide Consistent, SameDrive, WellFormed;
    var v' := Lift(b, v);
    assert v.Keys == a.nexus.Keys by { ConsistentKeys(a, w, v); }
    SwapConsistent(a, b, gone, added, new_, q, w, v, v');
    assert Agree(a, b, v, v');
  }

  lemma ConsistentKeys(a: Netlist, w: World, v: Valuation)
    requires Consistent(a, w, v)
    ensures v.Keys == a.nexus.Keys
  {
  }

  lemma LiftOfRestrict(a: Netlist, b: Netlist, gone: set<NodeId>, added: map<NodeId, Node>, new_: set<NexusId>,
                       q: NexusId, w: World, v': Valuation)
    requires Swapped(a, b, gone, added, new_, q) && Consistent(b, w, v')
    ensures Lifts(a, b, Restrict(a, v'), v')
  {
    forall n | n in b.nexus && n !in a.nexus ensures v'[n] == Fill(Vz, b.nexus[n].width) {
      NewNexusIsZ(a, b, gone, added, new_, q, w, v', n);
    }
  }

  lemma SwapTraced(a: Netlist, b: Netlist, gone: set<NodeId>, added: map<NodeId, Node>, new_: set<NexusId>, q: NexusId,
                   w: World, v': Valuation)
    requires Swapped(a, b, gone, added, new_, q) && Consistent(b, w, v')
    requires SameDrive(a, gone, added, q, w, Restrict(a, v'), v')
    ensures Traced(w, a, b, v')
  {
    hide Consistent, SameDrive, WellFormed;
    var v := Restrict(a, v');
    LiftOfRestrict(a, b, gone, added, new_, q, w, v');
    SwapConsistent(a, b, gone, added, new_, q, w, v, v');
    assert Agree(a, b, v, v');
  }
}
