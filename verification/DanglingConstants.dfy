/** Removing a driver that nothing else reads: a dangling constant, or a flip-flop that only feeds itself. */
module DanglingConstants {
  import opened Logic4
  import opened Netlists
  import opened Rewrites
  import opened Constants
  import opened CpropRewrites

  function Drop(a: Netlist, id: NodeId): Netlist { Netlist(a.nodes - {id}, a.nexus) }

  /** What the pass looks at before it deletes a constant whose bits are not all z. */
  predicate Dangling(a: Netlist, id: NodeId)
  {
    && id in a.nodes && a.nodes[id].Const? && a.nodes[id].q in a.nexus
    && !HasInput(a, a.nodes[id].q) && !a.nexus[a.nodes[id].q].IsSeen()
  }

  // ----- a constant that is all z -----

  lemma DropZPreserves(a: Netlist, id: NodeId, w: World)
    requires WellFormed(a) && id in a.nodes && a.nodes[id].Const? && AllZ(a.nodes[id].value)
    ensures Preserves(w, a, Drop(a, id))
  {
    hide WellFormed, Consistent, Preserves, SameDrive;
    var b, q := Drop(a, id), a.nodes[id].q;
    AllFit(a, id);
    assert q in a.nodes[id].Drives();
    assert Swapped(a, b, {id}, map[], {}, q);
    forall v, v' ensures SameDrive(a, {id}, map[], q, w, v, v') { NothingDriven(a, id, q, w, v, v'); }
    SwapPreserves(a, b, {id}, map[], {}, q, w);
  }

  lemma NothingDriven(a: Netlist, id: NodeId, q: NexusId, w: World, v: Valuation, v': Valuation)
    requires id in a.nodes && a.nodes[id].Const? && AllZ(a.nodes[id].value) && q in a.nexus
    ensures SameDrive(a, {id}, map[], q, w, v, v')
  {
  }

  // ----- drivers of a nexus that nothing else reads -----

  /** A node that drives `q` and nothing else: a computed value, or a self-fed flip-flop. */
  predicate OnlyOn(node: Node, q: NexusId) { (!node.Device? && node.q == q) || (SelfFed(node) && node.outs[0] == q) }

  predicate Unread(a: Netlist, q: NexusId)
  {
    && (forall id :: id in a.nodes && q in a.nodes[id].Inputs() ==> SelfFed(a.nodes[id]) && OnlyOn(a.nodes[id], q))
    && !HasPassive(a, q)
  }

  /** What an uncontrolled flip-flop drives at a moment is its state, whatever its pins carry then. */
  ghost predicate HoldsState(w: World)
  {
    forall kind: DeviceKind, ins: seq<Vec>, passive: seq<Vec>, drives: seq<Vec> ::
      kind.Flop? && !kind.controlled ==> w.behaves(kind, ins, passive, drives)
  }

  ghost predicate SameValues(v: Valuation, v': Valuation, q: NexusId)
  {
    v.Keys == v'.Keys && forall n :: n != q ==> Get(v, n) == Get(v', n)
  }

  /** Away from `q`, where only such drivers may differ, the two netlists have the same nodes. */
  predicate SameAway(a: Netlist, b: Netlist, q: NexusId)
  {
    && a.nexus == b.nexus
    && (forall id :: id in a.nodes && !OnlyOn(a.nodes[id], q) ==> id in b.nodes && b.nodes[id] == a.nodes[id])
    && (forall id :: id in b.nodes && !OnlyOn(b.nodes[id], q) ==> id in a.nodes && b.nodes[id] == a.nodes[id])
  }

  lemma UnreadDriver(a: Netlist, q: NexusId, w: World, v: Valuation, v': Valuation, id: NodeId, k: nat, i: nat)
    requires Unread(a, q) && SameValues(v, v', q) && id in a.nodes
    ensures DriverBit(w, v, id, a.nodes[id], k, i) == DriverBit(w, v', id, a.nodes[id], k, i)
  {
    if q !in a.nodes[id].Inputs() { DriverFrame(w, v, v', id, a.nodes[id], k, i); }
  }

  lemma SamePull(a: Netlist, b: Netlist, q: NexusId, w: World, v: Valuation, v': Valuation, n: NexusId, i: nat, bit: V)
    requires SameAway(a, b, q) && Unread(a, q) && SameValues(v, v', q) && n != q
    requires Driven(a, w, v, n, i, bit)
    ensures Driven(b, w, v', n, i, bit)
  {
    hide DriverBit;
    if !(n in a.nexus && a.nexus[n].IsOpen() && BitAt(w.outside(n), i) == bit) {
      var id, k :| Pin(a, id, k, n) && DriverBit(w, v, id, a.nodes[id], k, i) == bit;
      UnreadDriver(a, q, w, v, v', id, k, i);
      assert !OnlyOn(a.nodes[id], q);
      assert Pin(b, id, k, n);
    }
  }

  lemma SameAwaySymmetric(a: Netlist, b: Netlist, q: NexusId)
    requires SameAway(a, b, q)
    ensures SameAway(b, a, q)
  {
  }

  /** The nexuses other than `q` keep their equations. */
  lemma OtherNexus(a: Netlist, b: Netlist, q: NexusId, w: World, v: Valuation, v': Valuation, n: NexusId)
    requires SameAway(a, b, q) && Unread(a, q) && Unread(b, q) && SameValues(v, v', q) && n != q && n in a.nexus
    requires NexusHolds(a, w, v, n)
    ensures NexusHolds(b, w, v', n)
  {
    hide Driven, Unread, SameAway, Pulled;
    SameAwaySymmetric(a, b, q);
    assert a.nexus == b.nexus by { SameNexuses(a, b, q); }
    assert SameValues(v', v, q);
    forall i: nat, bit ensures Driven(a, w, v, n, i, bit) <==> Driven(b, w, v', n, i, bit) {
      if Driven(a, w, v, n, i, bit) { SamePull(a, b, q, w, v, v', n, i, bit); }
      if Driven(b, w, v', n, i, bit) { SamePull(b, a, q, w, v', v, n, i, bit); }
    }
    forall i: nat ensures Resolved(a, w, v, n, i) == Resolved(b, w, v', n, i) {}
  }

  lemma SameNexuses(a: Netlist, b: Netlist, q: NexusId)
    requires SameAway(a, b, q)
    ensures a.nexus == b.nexus
  {
  }

  lemma OtherDevice(b: Netlist, q: NexusId, w: World, v: Valuation, v': Valuation, id: NodeId)
    requires Unread(b, q) && SameValues(v, v', q) && id in b.nodes && b.nodes[id].Device? && !OnlyOn(b.nodes[id], q)
    ensures DeviceHolds(w, v, id, b.nodes[id]) <==> DeviceHolds(w, v', id, b.nodes[id])
  {
    var d := b.nodes[id];
    forall n | n in d.ins ensures Get(v, n) == Get(v', n) { assert n in d.Inputs(); }
    forall n | n in d.passive ensures Get(v, n) == Get(v', n) { assert n in d.Passive(); }
    assert Values(v, d.ins) == Values(v', d.ins);
    assert Values(v, d.passive) == Values(v', d.passive);
  }

  lemma StateHolds(b: Netlist, q: NexusId, w: World, v: Valuation, id: NodeId)
    requires id in b.nodes && b.nodes[id].Device? && OnlyOn(b.nodes[id], q) && (HoldsState(w) || !HasInput(b, q))
    ensures DeviceHolds(w, v, id, b.nodes[id])
  {
    assert q in b.nodes[id].Inputs();
  }

  /** What the drivers on `q` in `b` resolve to. */
  ghost function Settled(b: Netlist, w: World, v: Valuation, q: NexusId): (r: Vec)
    requires q in b.nexus
    ensures |r| == b.nexus[q].width
  {
    seq(b.nexus[q].width, i requires 0 <= i => Pulled(b.nexus[q].signals, Resolved(b, w, v, q, i)))
  }

  lemma SettledHolds(b: Netlist, q: NexusId, w: World, v: Valuation)
    requires Unread(b, q) && q in b.nexus && q in v
    ensures NexusHolds(b, w, v[q := Settled(b, w, v, q)], q)
  {
    hide DriverBit, Pulled;
    var v' := v[q := Settled(b, w, v, q)];
    assert SameValues(v, v', q);
    forall id, k, i: nat | Pin(b, id, k, q)
      ensures DriverBit(w, v, id, b.nodes[id], k, i) == DriverBit(w, v', id, b.nodes[id], k, i)
    {
      UnreadDriver(b, q, w, v, v', id, k, i);
    }
    forall i: nat, bit ensures Driven(b, w, v, q, i, bit) <==> Driven(b, w, v', q, i, bit) {}
    forall i: nat ensures Resolved(b, w, v, q, i) == Resolved(b, w, v', q, i) {}
  }

  /** Letting `q` settle in `b` makes a consistent valuation of `a` one of `b`. */
  lemma Settle(a: Netlist, b: Netlist, q: NexusId, w: World, v: Valuation) returns (v': Valuation)
    requires SameAway(a, b, q) && Unread(a, q) && Unread(b, q) && q in a.nexus && Consistent(a, w, v)
    requires HoldsState(w) || !HasInput(b, q)
    ensures Consistent(b, w, v') && SameValues(v, v', q)
  {
    hide NexusHolds, DeviceHolds, Unread;
    v' := v[q := Settled(b, w, v, q)];
    assert SameValues(v, v', q);
    SettledHolds(b, q, w, v);
    forall n | n in b.nexus ensures NexusHolds(b, w, v', n) {
      if n != q { OtherNexus(a, b, q, w, v, v', n); }
    }
    forall id | id in b.nodes && b.nodes[id].Device? ensures DeviceHolds(w, v', id, b.nodes[id]) {
      if OnlyOn(b.nodes[id], q) {
        StateHolds(b, q, w, v', id);
      } else {
        OtherDevice(b, q, w, v, v', id);
      }
    }
  }

  lemma DropUnread(a: Netlist, id: NodeId)
    requires Dangling(a, id) && !HasPassive(a, a.nodes[id].q)
    ensures var b, q := Drop(a, id), a.nodes[id].q;
      SameAway(a, b, q) && Unread(a, q) && Unread(b, q) && Extends(a, b) && !Observed(b, q)
  {
    var b, q := Drop(a, id), a.nodes[id].q;
    forall x | x in b.nodes ensures x in a.nodes && b.nodes[x] == a.nodes[x] {}
    assert !HasInput(b, q) && !HasPassive(b, q);
    assert forall n :: HasInput(b, n) ==> HasInput(a, n);
  }

  /** What drives a nexus that nobody looks at does not matter. */
  lemma UnreadPreserves(a: Netlist, b: Netlist, q: NexusId, w: World)
    requires SameAway(a, b, q) && Unread(a, q) && Unread(b, q) && Extends(a, b) && !Observed(b, q) && q in a.nexus
    requires HoldsState(w) || (!HasInput(a, q) && !HasInput(b, q))
    ensures Preserves(w, a, b)
  {
    hide Consistent, Unread, SameAway, Carried, Traced, Extends, Observed, HoldsState, HasInput;
    SameAwaySymmetric(a, b, q);
    assert q in b.nexus by { SameNexuses(a, b, q); }
    forall v | Consistent(a, w, v) ensures Carried(w, a, b, v) {
      var v' := Settle(a, b, q, w, v);
      assert Agree(a, b, v, v');
      UnfoldCarried(w, a, b, v);
    }
    forall v' | Consistent(b, w, v') ensures Traced(w, a, b, v') {
      var v := Settle(b, a, q, w, v');
      assert Agree(a, b, v, v');
      UnfoldTraced(w, a, b, v');
    }
  }

  lemma DropDanglingPreserves(a: Netlist, id: NodeId, w: World)
    requires Dangling(a, id) && !HasPassive(a, a.nodes[id].q)
    ensures Preserves(w, a, Drop(a, id))
  {
    hide Unread, SameAway, Preserves, Extends, Observed;
    DropUnread(a, id);
    assert !HasInput(Drop(a, id), a.nodes[id].q);
    UnreadPreserves(a, Drop(a, id), a.nodes[id].q, w);
  }

  /** The output of a flip-flop that only feeds itself. */
  predicate FeedsOnlyItself(a: Netlist, id: NodeId)
  {
    && id in a.nodes && SelfFed(a.nodes[id]) && a.nodes[id].outs[0] in a.nexus
    && !Observed(Drop(a, id), a.nodes[id].outs[0]) && !HasPassive(a, a.nodes[id].outs[0])
  }

  lemma DropFlopPreserves(a: Netlist, id: NodeId, w: World)
    requires FeedsOnlyItself(a, id) && HoldsState(w)
    ensures Preserves(w, a, Drop(a, id))
  {
    hide Unread, SameAway, Preserves, Extends, Observed, HoldsState;
    DropSelfFed(a, id);
    UnreadPreserves(a, Drop(a, id), a.nodes[id].outs[0], w);
  }

  lemma DropSelfFed(a: Netlist, id: NodeId)
    requires FeedsOnlyItself(a, id)
    ensures var b, q := Drop(a, id), a.nodes[id].outs[0];
      SameAway(a, b, q) && Unread(a, q) && Unread(b, q) && Extends(a, b) && !Observed(b, q)
  {
    var b, q := Drop(a, id), a.nodes[id].outs[0];
    forall x | x in b.nodes ensures x in a.nodes && b.nodes[x] == a.nodes[x] {}
    assert !HasInput(b, q) && !HasPassive(b, q);
    assert forall x :: x in b.nodes ==> q !in b.nodes[x].Inputs();
    assert forall n :: HasInput(b, n) ==> HasInput(a, n);
  }

  // ----- a constant behind a switch -----

  /** A constant on a local net that a switch (node 1) connects to a net the user can see. */
  function Switched(value: Vec): Netlist
  {
    Netlist(map[0 := Const(value, 0), 1 := Device(Other(0), [], [], [0, 1])],
            map[0 := Nexus(|value|, [Signal(Wire, true, 0, 0, NotAPort, false)]),
                1 := Nexus(|value|, [Signal(Wire, false, 0, 0, NotAPort, false)])])
  }

  /** The switch copies what the local net carries to the other side. */
  function SwitchWorld(value: Vec): World
  {
    World((kind, ins: seq<Vec>, passive: seq<Vec>, drives: seq<Vec>) =>
            |passive| == 2 && |drives| == 2 && drives[1] == passive[0],
          (id, k) => if k == 1 then value else [],
          n => [])
  }

  /** The switch is the only driver of the far side, and drives the value there. */
  lemma FarSide(value: Vec, a: Netlist, v: Valuation, i: nat)
    requires (a == Switched(value) || a == Drop(Switched(value), 0)) && i < |value|
    ensures Resolved(a, SwitchWorld(value), v, 1, i) == value[i]
  {
    hide Resolved;
    assert forall id, k :: Pin(a, id, k, 1) ==> id == 1 && k == 1;
    assert Pin(a, 1, 1, 1);
    SoleDrive(a, SwitchWorld(value), v, 1, i, 1, 1);
  }

  lemma SoleDrive(a: Netlist, w: World, v: Valuation, n: NexusId, i: nat, id: NodeId, k: nat)
    requires n in a.nexus && !a.nexus[n].IsOpen() && Pin(a, id, k, n)
    requires forall id', k' :: Pin(a, id', k', n) ==> id' == id && k' == k
    ensures Resolved(a, w, v, n, i) == DriverBit(w, v, id, a.nodes[id], k, i)
  {
    var bit := DriverBit(w, v, id, a.nodes[id], k, i);
    assert bit != Vz ==> Driven(a, w, v, n, i, bit);
    assert forall x :: Driven(a, w, v, n, i, x) ==> x == bit;
  }

  /** With the constant gone, nothing drives the near side. */
  lemma NearSide(value: Vec, v: Valuation, i: nat)
    ensures Resolved(Drop(Switched(value), 0), SwitchWorld(value), v, 0, i) == Vz
  {
    hide Resolved;
    var b := Drop(Switched(value), 0);
    assert forall id, k :: Pin(b, id, k, 0) ==> id == 1 && k == 0;
    assert Pin(b, 1, 0, 0);
    SoleDrive(b, SwitchWorld(value), v, 0, i, 1, 0);
  }

  lemma NearSideBefore(value: Vec, v: Valuation, i: nat)
    requires i < |value|
    ensures Resolved(Switched(value), SwitchWorld(value), v, 0, i) == value[i]
  {
    var a, w := Switched(value), SwitchWorld(value);
    forall id, k | Pin(a, id, k, 0)
      ensures DriverBit(w, v, id, a.nodes[id], k, i) == if id == 0 then value[i] else Vz
    {
      assert id < 2;
    }
    assert Pin(a, 0, 0, 0);
    assert forall bit :: bit != Vz ==> (Driven(a, w, v, 0, i, bit) <==> bit == value[i]);
  }

  lemma SwitchedConsistent(value: Vec)
    ensures Consistent(Switched(value), SwitchWorld(value), map[0 := value, 1 := value])
  {
    hide Resolved;
    var a, w, v := Switched(value), SwitchWorld(value), map[0 := value, 1 := value];
    forall n | n in a.nexus ensures NexusHolds(a, w, v, n) {
      forall i: nat | i < |value| ensures Resolved(a, w, v, n, i) == value[i] {
        if n == 0 { NearSideBefore(value, v, i); } else { FarSide(value, a, v, i); }
      }
    }
    assert Values(v, [0, 1])[0] == value;
  }

  lemma NearSideIsZ(value: Vec, v: Valuation)
    requires Consistent(Drop(Switched(value), 0), SwitchWorld(value), v)
    ensures AllZ(Get(v, 0))
  {
    hide Resolved;
    var b := Drop(Switched(value), 0);
    assert NexusHolds(b, SwitchWorld(value), v, 0);
    forall i | 0 <= i < |Get(v, 0)| ensures Get(v, 0)[i] == Vz {
      NearSide(value, v, i);
      assert BitAt(Get(v, 0), i) == Vz;
    }
  }

  lemma SwitchCopies(value: Vec, v: Valuation)
    requires Consistent(Drop(Switched(value), 0), SwitchWorld(value), v)
    ensures Get(v, 0) == value
  {
    hide NexusHolds;
    var b, w := Drop(Switched(value), 0), SwitchWorld(value);
    assert DeviceHolds(w, v, 1, b.nodes[1]);
    assert Values(v, [0, 1])[0] == Get(v, 0);
  }

  lemma DroppedInconsistent(value: Vec, v: Valuation)
    requires !AllZ(value)
    ensures !Consistent(Drop(Switched(value), 0), SwitchWorld(value), v)
  {
    hide Consistent, AllZ, Drop, Switched, SwitchWorld;
    if Consistent(Drop(Switched(value), 0), SwitchWorld(value), v) {
      NearSideIsZ(value, v);
      SwitchCopies(value, v);
      assert false;
    }
  }

  /** Deleting the constant changes what the user can see, whatever its value. */
  lemma SwitchedLosesValue(value: Vec)
    requires !AllZ(value)
    ensures !Preserves(SwitchWorld(value), Switched(value), Drop(Switched(value), 0))
  {
    hide Consistent, Agree, AllZ;
    var a, w := Switched(value), SwitchWorld(value);
    var v := map[0 := value, 1 := value];
    SwitchedConsistent(value);
    forall v' ensures !Consistent(Drop(a, 0), w, v') { DroppedInconsistent(value, v'); }
    assert !Carried(w, a, Drop(a, 0), v);
  }
}
