/** Where constant propagation changes what can be seen: the conditions of its main result are not idle. */
module CpropLimits {
  import opened Logic4
  import opened Netlists
  import opened Rewrites
  import opened Constants
  import opened CpropRewrites
  import opened MergeRewrite
  import opened Designs
  import opened CpropSteps
  import opened DanglingConstants
  import opened RewriteExactness
  import opened CpropFunctors
  import opened CpropPass

  const VISIBLE := Signal(Wire, false, 0, 0, NotAPort, false)
  /** `input tri0 t;` in a root module. */
  const TRI_PORT := Signal(Tri0, false, 0, 0, InputPort, true)

  /** The outside drives 1 onto nexus 0. */
  const ONE_OUTSIDE := World((kind, ins: seq<Vec>, passive: seq<Vec>, drives: seq<Vec>) => true, (id, k) => [],
                             n => if n == 0 then [V1] else [])

  // ----- folding on the word of a port that pulls -----

  /** `assign y = {t};` */
  const TRI_CONCAT := Netlist(map[0 := Concat(1, false, 1, [0])],
                              map[0 := Nexus(1, [TRI_PORT]), 1 := Nexus(1, [VISIBLE])])

  lemma TriIsExposed(a: Netlist, order: seq<NodeId>, fuel: nat)
    requires 0 in a.nexus && a.nexus[0] == Nexus(1, [TRI_PORT])
    requires OutLinks(a.nodes, order, 0) == [] && !HasPassive(a, 0)
    ensures DriversConstant(a, order, 0, fuel) && SomeExposed(a, order, 0, fuel)
    ensures DrivenVector(a, order, 0, fuel) == [V0] && DrivenValue(a, order, 0) == V0
  {
    var sigs := a.nexus[0].signals;
    assert sigs[1..] == [] && TRI_PORT in sigs;
    assert PullCount(sigs) == 1;
    assert !SomeVariable(sigs);
    assert Exposed(a, order, 0, fuel, 0);
  }

  lemma TriConcatFolds()
    ensures WellFormed(TRI_CONCAT) && ConcatFolds(TRI_CONCAT, [0], 0) && ExposedPart(TRI_CONCAT, [0], [0])
    ensures FoldedConcat(TRI_CONCAT, [0], TRI_CONCAT.nodes[0]) == Const([V0], 1)
  {
    assert OutLinks(TRI_CONCAT.nodes, [0], 0) == [];
    TriIsExposed(TRI_CONCAT, [0], 1);
    assert TotalWidth(TRI_CONCAT, [0]) == 1;
    assert 0 in TRI_CONCAT.nodes[0].parts;
    assert JoinDriven(TRI_CONCAT, [0], [0], 1) == [V0];
  }

  /** Nexus 0 follows the outside. */
  lemma PortFollows(a: Netlist, v: Valuation)
    requires 0 in a.nexus && a.nexus[0] == Nexus(1, [TRI_PORT]) && Get(v, 0) == [V1]
    requires forall id, k :: !Pin(a, id, k, 0)
    ensures NexusHolds(a, ONE_OUTSIDE, v, 0)
  {
    assert a.nexus[0].IsOpen() by { assert TRI_PORT in a.nexus[0].signals; }
    DrivenFromOutside(a, ONE_OUTSIDE, v, 0, 0);
  }

  /** A nexus without pulls that one pin drives. */
  lemma OneDriver(a: Netlist, w: World, v: Valuation, n: NexusId, id: NodeId)
    requires n in a.nexus && a.nexus[n] == Nexus(1, [VISIBLE]) && Pin(a, id, 0, n)
    requires forall id', k :: Pin(a, id', k, n) ==> id' == id && k == 0
    ensures NexusHolds(a, w, v, n) <==> Get(v, n) == [DriverBit(w, v, id, a.nodes[id], 0, 0)]
  {
    hide Resolved, DriverBit;
    SoleDrive(a, w, v, n, 0, id, 0);
    if |Get(v, n)| == 1 { assert BitAt(Get(v, n), 0) == Get(v, n)[0]; }
  }

  lemma TriConcatBreaks()
    ensures !Preserves(ONE_OUTSIDE, TRI_CONCAT, Replaced(TRI_CONCAT, 0, 1, Const([V0], 1)))
  {
    hide NexusHolds;
    var a, b := TRI_CONCAT, Replaced(TRI_CONCAT, 0, 1, Const([V0], 1));
    var v := map[0 := [V1], 1 := [V1]];
    PortFollows(a, v);
    assert Pin(a, 0, 0, 1);
    OneDriver(a, ONE_OUTSIDE, v, 1, 0);
    assert Join(v, [0]) == [V1];
    assert Consistent(a, ONE_OUTSIDE, v);
    forall v' | Consistent(b, ONE_OUTSIDE, v') ensures !Agree(a, b, v, v') {
      assert NexusHolds(b, ONE_OUTSIDE, v', 1);
      assert Pin(b, 1, 0, 1);
      OneDriver(b, ONE_OUTSIDE, v', 1, 1);
      assert VISIBLE in b.nexus[1].signals;
      assert Observed(b, 1);
    }
    assert !Carried(ONE_OUTSIDE, a, b, v);
  }

  /** `assign y = t ? t : 1'b0;` */
  const TRI_MUX := Netlist(map[0 := Mux(1, 1, 1, 0, [2, 0]), 1 := Const([V0], 2)],
                           map[0 := Nexus(1, [TRI_PORT]), 1 := Nexus(1, [VISIBLE]), 2 := Nexus(1, [VISIBLE])])

  lemma TriMuxFolds()
    ensures WellFormed(TRI_MUX) && MuxFolds(TRI_MUX, [0, 1], 0) && SomeExposed(TRI_MUX, [0, 1], 0, 2)
    ensures FoldedMux(TRI_MUX, [0, 1], TRI_MUX.nodes[0]) == Bufz(1, 1, 2)
  {
    hide DriversConstant, DrivenVector, SomeExposed;
    var order := [0, 1];
    assert order[1..] == [1] && order[1..][1..] == [];
    assert OutLinks(TRI_MUX.nodes, order, 0) == [];
    TriIsExposed(TRI_MUX, order, 2);
    forall id | id in TRI_MUX.nodes ensures NodeFits(TRI_MUX, TRI_MUX.nodes[id]) && id in order {}
  }

  lemma TriMuxBefore(v: Valuation)
    requires v == map[0 := [V1], 1 := [V1], 2 := [V0]]
    ensures Consistent(TRI_MUX, ONE_OUTSIDE, v)
  {
    hide NexusHolds;
    var a := TRI_MUX;
    PortFollows(a, v);
    assert Pin(a, 0, 0, 1) && Pin(a, 1, 0, 2);
    OneDriver(a, ONE_OUTSIDE, v, 1, 0);
    OneDriver(a, ONE_OUTSIDE, v, 2, 1);
    assert ToNat([V1]) == 1;
    assert Values(v, [2, 0])[1] == [V1];
  }

  lemma TriMuxAfter(b: Netlist, v': Valuation)
    requires b == Replaced(TRI_MUX, 0, 2, Bufz(1, 1, 2)) && Consistent(b, ONE_OUTSIDE, v')
    ensures Get(v', 1) == [V0]
  {
    hide NexusHolds;
    assert NexusHolds(b, ONE_OUTSIDE, v', 1) && NexusHolds(b, ONE_OUTSIDE, v', 2);
    assert Pin(b, 2, 0, 1) && Pin(b, 1, 0, 2);
    OneDriver(b, ONE_OUTSIDE, v', 1, 2);
    OneDriver(b, ONE_OUTSIDE, v', 2, 1);
  }

  lemma TriMuxBreaks()
    ensures !Preserves(ONE_OUTSIDE, TRI_MUX, Replaced(TRI_MUX, 0, 2, Bufz(1, 1, 2)))
  {
    hide Consistent;
    var a, b := TRI_MUX, Replaced(TRI_MUX, 0, 2, Bufz(1, 1, 2));
    var v := map[0 := [V1], 1 := [V1], 2 := [V0]];
    TriMuxBefore(v);
    forall v' | Consistent(b, ONE_OUTSIDE, v') ensures !Agree(a, b, v, v') {
      TriMuxAfter(b, v');
      assert VISIBLE in b.nexus[1].signals;
      assert Observed(b, 1);
    }
    assert !Carried(ONE_OUTSIDE, a, b, v);
  }

  // ----- deleting a flip-flop that feeds itself -----

  /** A flip-flop that keeps a value on a net the user can see. */
  function HeldFlop(width: nat): Netlist
  {
    Netlist(map[0 := Device(Flop(0, false), [0], [0], [])], map[0 := Nexus(width, [VISIBLE])])
  }

  /** Its state is `value`. */
  function HoldingWorld(value: Vec): World
  {
    World((kind, ins: seq<Vec>, passive: seq<Vec>, drives: seq<Vec>) => true, (id, k) => value, n => [])
  }

  lemma FlopDrives(value: Vec, v: Valuation, i: nat)
    requires i < |value|
    ensures Resolved(HeldFlop(|value|), HoldingWorld(value), v, 0, i) == value[i]
  {
    var a := HeldFlop(|value|);
    assert Pin(a, 0, 0, 0);
    SoleDrive(a, HoldingWorld(value), v, 0, i, 0, 0);
  }

  lemma HeldConsistent(value: Vec)
    ensures Consistent(HeldFlop(|value|), HoldingWorld(value), map[0 := value])
  {
    hide Resolved;
    var a, w, v := HeldFlop(|value|), HoldingWorld(value), map[0 := value];
    forall i: nat | i < |value| ensures Resolved(a, w, v, 0, i) == value[i] { FlopDrives(value, v, i); }
  }

  lemma DroppedFloats(value: Vec, v': Valuation)
    requires Consistent(Drop(HeldFlop(|value|), 0), HoldingWorld(value), v')
    ensures AllZ(Get(v', 0))
  {
    var b := Drop(HeldFlop(|value|), 0);
    assert NexusHolds(b, HoldingWorld(value), v', 0);
    forall i | 0 <= i < |Get(v', 0)| ensures Get(v', 0)[i] == Vz {
      DrivenFromOutside(b, HoldingWorld(value), v', 0, i);
      assert BitAt(Get(v', 0), i) == Vz;
    }
  }

  /** The deletion loses the value of the flip-flop, whatever it is. */
  lemma HeldValueIsLost(value: Vec)
    requires !AllZ(value)
    ensures WellFormed(HeldFlop(|value|)) && SelfFed(HeldFlop(|value|).nodes[0])
    ensures !Preserves(HoldingWorld(value), HeldFlop(|value|), Drop(HeldFlop(|value|), 0))
  {
    hide Consistent, AllZ;
    var a, b, w := HeldFlop(|value|), Drop(HeldFlop(|value|), 0), HoldingWorld(value);
    var v := map[0 := value];
    HeldConsistent(value);
    assert VISIBLE in b.nexus[0].signals;
    assert Observed(b, 0);
    forall v' | Consistent(b, w, v') ensures !Agree(a, b, v, v') { DroppedFloats(value, v'); }
    assert !Carried(w, a, b, v);
  }

  // ----- whole runs -----

  /** A concatenation that reads a self-fed flip-flop. */
  const STALE := Netlist(map[0 := Concat(1, false, 1, [0]), 1 := Device(Flop(0, false), [0], [0], []),
                             2 := Device(Other(0), [], [], [])],
                         map[0 := Nexus(1, [VISIBLE]), 1 := Nexus(1, [VISIBLE])])

  /** The loop ends with a node that can be rewritten: the scan deletes the flip-flop after it has passed the
      concatenation, and the deletion does not count. */
  method StaleRun(d: Design) returns (rounds: nat)
    requires d.Valid() && d.Net() == STALE && d.order == [0, 1, 2]
    modifies d
    ensures d.Valid() && rounds == 1 && d.Net() == Drop(STALE, 1) && d.order == [0, 2]
    ensures CanRewrite(d.Net(), d.order, 0)
  {
    hide WellFormed, OnList, Free, CanRewrite, Idle, Swept, Run;
    StaleIsIdle();
    StaleSwept();
    StaleRewritable();
    rounds := Propagate(d);
  }

  lemma StaleIsIdle()
    ensures Idle(STALE, [0, 1, 2])
  {
    hide DriversConstant;
    var order := [0, 1, 2];
    assert order[1..] == [1, 2] && order[1..][1..] == [2] && order[1..][1..][1..] == [];
    assert OutLinks(STALE.nodes, [2], 0) == [] && OutLinks(STALE.nodes, [1, 2], 0) == [1];
    assert OutLinks(STALE.nodes, order, 0) == [1];
    assert !DriversConstant(STALE, order, 0, 3) by { FlopNotConstant(STALE, order, 0, 3, 1); }
    assert 0 in STALE.nodes[0].parts;
    assert !CanRewrite(STALE, order, 0) && !CanRewrite(STALE, order, 1) && !CanRewrite(STALE, order, 2);
    assert Without(order, 1) == [0, 2];
    ScanUnfold(STALE, order, 0);
    ScanUnfold(STALE, order, 1);
    ScanStops(Drop(STALE, 1), [0, 2], 1);
  }

  lemma Unlisted(nodes: map<NodeId, Node>, order: seq<NodeId>, n: NexusId)
    requires forall id :: id in nodes ==> n !in nodes[id].Outputs()
    ensures OutLinks(nodes, order, n) == []
  {
    var ds := OutLinks(nodes, order, n);
    if |ds| > 0 { OutLinksMeaning(nodes, order, n, ds[0]); }
  }

  lemma FlopNotConstant(a: Netlist, order: seq<NodeId>, n: NexusId, fuel: nat, id: NodeId)
    requires OutLinks(a.nodes, order, n) == [id] && id in a.nodes && a.nodes[id].Device?
    ensures !DriversConstant(a, order, n, fuel)
  {
    assert id in OutLinks(a.nodes, order, n);
  }

  lemma StaleSwept()
    ensures Swept(STALE, [0, 1, 2]) == (Drop(STALE, 1), [0, 2])
  {
    var order := [0, 1, 2];
    assert Without(order, 1) == [0, 2];
    ScanUnfold(STALE, order, 0);
    ScanUnfold(STALE, order, 1);
    ScanStops(Drop(STALE, 1), [0, 2], 1);
  }

  lemma StaleRewritable()
    ensures CanRewrite(Drop(STALE, 1), [0, 2], 0)
  {
    var b, order := Drop(STALE, 1), [0, 2];
    assert order[1..] == [2] && order[1..][1..] == [];
    Unlisted(b.nodes, order, 0);
    assert [VISIBLE][1..] == [];
    assert DriversConstant(b, order, 0, 2);
  }

  /** With a switch on a net that cannot be seen, the whole pass changes what can be seen. */
  method SwitchedRun(d: Design, value: Vec) returns (rounds: nat)
    requires d.Valid() && d.Net() == Switched(value) && d.order == [0, 1] && !AllZ(value)
    modifies d
    ensures d.Valid() && d.Net() == old(Drop(d.Net(), 0)) && !Equivalent(old(d.Net()), d.Net())
  {
    hide WellFormed, OnList, Free, Equivalent, AllZ;
    ghost var a := d.Net();
    SwitchedSettles(value);
    rounds := Cprop(d);
    SwitchedReaped(value, d.Net());
    SwitchedNotEquivalent(value);
  }

  lemma SwitchedSettles(value: Vec)
    requires !AllZ(value)
    ensures NoSelfFed(Switched(value)) && NothingToRewrite(Switched(value), [0, 1])
    ensures Removable(Switched(value), 0) && !Removable(Switched(value), 1)
  {
  }

  lemma SwitchedReaped(value: Vec, b: Netlist)
    requires Reaped(Switched(value), b) && !AllZ(value)
    requires forall id :: id in b.nodes <==> id in Switched(value).nodes && !Removable(Switched(value), id)
    ensures b == Drop(Switched(value), 0)
  {
    hide WellFormed, Equivalent, Removable, AllZ;
    SwitchedSettles(value);
    assert b.nodes == map[1 := Switched(value).nodes[1]];
  }

  lemma SwitchedNotEquivalent(value: Vec)
    requires !AllZ(value)
    ensures !Equivalent(Switched(value), Drop(Switched(value), 0))
  {
    hide Preserves;
    SwitchedLosesValue(value);
  }
}
