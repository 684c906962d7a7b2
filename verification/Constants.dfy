/** Constant analysis of a nexus: whether all its drivers are constant, and the vector they drive. */
module Constants {
  import opened Logic4
  import opened Netlists
  import opened Rewrites

  /** The nodes with an output pin on nexus `n`, in the order of the node list. */
  function OutLinks(nodes: map<NodeId, Node>, order: seq<NodeId>, n: NexusId): seq<NodeId>
  {
    if |order| == 0 then []
    else (if order[0] in nodes && n in nodes[order[0]].Outputs() then [order[0]] else [])
         + OutLinks(nodes, order[1..], n)
  }

  lemma {:induction false} OutLinksMeaning(nodes: map<NodeId, Node>, order: seq<NodeId>, n: NexusId, id: NodeId)
    ensures id in OutLinks(nodes, order, n) <==> id in order && id in nodes && n in nodes[id].Outputs()
  {
    if |order| > 0 {
      OutLinksMeaning(nodes, order[1..], n, id);
      assert order == [order[0]] + order[1..];
    }
  }

  function PullCount(signals: seq<Signal>): nat
  {
    if |signals| == 0 then 0
    else (if signals[0].PullsDown() || signals[0].PullsUp() then 1 else 0) + PullCount(signals[1..])
  }

  /** What the analysis takes for a variable. Among the ports of the root it looks at wires only. */
  predicate IsVariable(s: Signal) { s.lref > 0 || s.kind.Reg? || (s.kind.Wire? && s.FromOutside()) }

  predicate SomeVariable(signals: seq<Signal>) { exists s :: s in signals && IsVariable(s) }

  /** Every driver is constant, and there is at most one. Substitutions are followed `fuel` deep. */
  predicate DriversConstant(nl: Netlist, order: seq<NodeId>, n: NexusId, fuel: nat)
    decreases fuel, 1
  {
    && n in nl.nexus && !SomeVariable(nl.nexus[n].signals) && !HasPassive(nl, n)
    && PullCount(nl.nexus[n].signals) + |OutLinks(nl.nodes, order, n)| <= 1
    && forall id :: id in OutLinks(nl.nodes, order, n) ==> ConstantNode(nl, order, id, fuel)
  }

  predicate ConstantNode(nl: Netlist, order: seq<NodeId>, id: NodeId, fuel: nat)
    decreases fuel, 0
  {
    && id in nl.nodes
    && match nl.nodes[id]
       case Const(_, _) => true
       case Substitute(_, _, _, whole, part) =>
         fuel > 0 && DriversConstant(nl, order, whole, fuel - 1) && DriversConstant(nl, order, part, fuel - 1)
       case _ => false
  }

  /** `over` laid over `under` from bit `base` on. */
  function Overlay(under: Vec, over: Vec, base: nat): (r: Vec)
    ensures |r| == |under|
  {
    seq(|under|, i requires 0 <= i < |under| => if base <= i < base + |over| then over[i - base] else under[i])
  }

  predicate SomePullDown(signals: seq<Signal>) { exists s :: s in signals && s.PullsDown() }

  function DrivenVector(nl: Netlist, order: seq<NodeId>, n: NexusId, fuel: nat): Vec
    decreases fuel
  {
    if n !in nl.nexus then []
    else
      var ds := OutLinks(nl.nodes, order, n);
      var sigs := nl.nexus[n].signals;
      if PullCount(sigs) > 0 then Fill(if SomePullDown(sigs) then V0 else V1, nl.nexus[n].width)
      else if |ds| > 0 && ds[0] in nl.nodes && nl.nodes[ds[0]].Const? then nl.nodes[ds[0]].value
      else if |ds| > 0 && ds[0] in nl.nodes && nl.nodes[ds[0]].Substitute? && fuel > 0 then
        Overlay(DrivenVector(nl, order, nl.nodes[ds[0]].whole, fuel - 1),
                DrivenVector(nl, order, nl.nodes[ds[0]].part, fuel - 1), nl.nodes[ds[0]].base)
      else Fill(Vz, nl.nexus[n].width)
  }

  /** The first bit, which does not follow substitutions. */
  function DrivenValue(nl: Netlist, order: seq<NodeId>, n: NexusId): V
  {
    if n !in nl.nexus then Vz
    else
      var ds := OutLinks(nl.nodes, order, n);
      var sigs := nl.nexus[n].signals;
      if PullCount(sigs) > 0 then (if SomePullDown(sigs) then V0 else V1)
      else if |ds| > 0 && ds[0] in nl.nodes && nl.nodes[ds[0]].Const? then BitAt(nl.nodes[ds[0]].value, 0)
      else Vz
  }

  // ----- ports of the root that pull -----

  /** A tri0 or tri1 port of the root: the outside may override the pull, but its link is no passive one, and
      the analysis does not ask whether it is a port. */
  predicate PullingPort(s: Signal) { s.FromOutside() && (s.kind.Tri0? || s.kind.Tri1?) }

  predicate SomePullingPort(signals: seq<Signal>) { exists s :: s in signals && PullingPort(s) }

  function PullBit(signals: seq<Signal>): V { if SomePullDown(signals) then V0 else V1 }

  /** A port that pulls gives way to the outside, a supply or a pull inside the design does not. */
  function PulledVector(signals: seq<Signal>, outside: Vec, width: nat): (r: Vec)
    ensures |r| == width
    ensures forall i :: 0 <= i < width ==>
      r[i] == if SomePullingPort(signals) && BitAt(outside, i) != Vz then BitAt(outside, i) else PullBit(signals)
  {
    seq(width, i requires 0 <= i =>
      if SomePullingPort(signals) && BitAt(outside, i) != Vz then BitAt(outside, i) else PullBit(signals))
  }

  /** What a nexus found constant carries, bit by bit, when the outside drives what it does in `w`. */
  function CarriedVector(nl: Netlist, w: World, order: seq<NodeId>, n: NexusId, fuel: nat): Vec
    decreases fuel
  {
    if n !in nl.nexus then []
    else
      var ds := OutLinks(nl.nodes, order, n);
      var sigs, width := nl.nexus[n].signals, nl.nexus[n].width;
      if PullCount(sigs) > 0 then
        PulledVector(sigs, w.outside(n), width)
      else if |ds| > 0 && ds[0] in nl.nodes && nl.nodes[ds[0]].Const? then nl.nodes[ds[0]].value
      else if |ds| > 0 && ds[0] in nl.nodes && nl.nodes[ds[0]].Substitute? && fuel > 0 then
        Overlay(CarriedVector(nl, w, order, nl.nodes[ds[0]].whole, fuel - 1),
                CarriedVector(nl, w, order, nl.nodes[ds[0]].part, fuel - 1), nl.nodes[ds[0]].base)
      else Fill(Vz, width)
  }

  /** Bit `i` of a nexus found constant comes from a pulling port of the root. */
  predicate Exposed(nl: Netlist, order: seq<NodeId>, n: NexusId, fuel: nat, i: nat)
    decreases fuel
  {
    && n in nl.nexus
    && var ds := OutLinks(nl.nodes, order, n);
       if PullCount(nl.nexus[n].signals) > 0 then SomePullingPort(nl.nexus[n].signals)
       else
         && |ds| > 0 && ds[0] in nl.nodes && nl.nodes[ds[0]].Substitute? && fuel > 0
         && var s := nl.nodes[ds[0]];
            if s.base <= i < s.base + s.wid then Exposed(nl, order, s.part, fuel - 1, i - s.base)
            else Exposed(nl, order, s.whole, fuel - 1, i)
  }

  predicate SomeExposed(nl: Netlist, order: seq<NodeId>, n: NexusId, fuel: nat)
  {
    n in nl.nexus && exists i :: 0 <= i < nl.nexus[n].width && Exposed(nl, order, n, fuel, i)
  }

  /** The outside leaves the driven vector alone. */
  predicate AsDriven(nl: Netlist, w: World, order: seq<NodeId>, n: NexusId, fuel: nat)
  {
    CarriedVector(nl, w, order, n, fuel) == DrivenVector(nl, order, n, fuel)
  }

  /** The node list holds every node. */
  predicate Lists(nl: Netlist, order: seq<NodeId>) { forall id :: id in nl.nodes ==> id in order }

  // ----- what the analysis means -----

  lemma {:induction false} NoPulls(signals: seq<Signal>, b: V)
    requires PullCount(signals) == 0
    ensures forall s :: s in signals ==> !s.PullsDown() && !s.PullsUp()
    ensures Pulled(signals, b) == b
  {
    if |signals| > 0 {
      NoPulls(signals[1..], b);
      assert signals == [signals[0]] + signals[1..];
    }
  }

  lemma {:induction false} SolePull(signals: seq<Signal>) returns (p: Signal)
    requires PullCount(signals) == 1
    ensures p in signals && (p.PullsDown() || p.PullsUp())
    ensures forall s :: s in signals && (s.PullsDown() || s.PullsUp()) ==> s == p
  {
    assert signals == [signals[0]] + signals[1..];
    if signals[0].PullsDown() || signals[0].PullsUp() {
      p := signals[0];
      NoPulls(signals[1..], Vz);
    } else {
      p := SolePull(signals[1..]);
    }
  }

  /** What the single pull of a nexus found constant makes of the bit that the outside drives. */
  lemma OnePull(x: Nexus, b: V)
    requires PullCount(x.signals) == 1 && !SomeVariable(x.signals)
    ensures Pulled(x.signals, if x.IsOpen() then b else Vz)
         == if SomePullingPort(x.signals) && b != Vz then b else PullBit(x.signals)
  {
    var p := SolePull(x.signals);
    if x.IsOpen() {
      var s :| s in x.signals && s.IsOpen();
      assert !IsVariable(s);
      assert s == p;
    }
  }

  lemma NotOpen(x: Nexus)
    requires PullCount(x.signals) == 0 && !SomeVariable(x.signals)
    ensures !x.IsOpen()
  {
    NoPulls(x.signals, Vz);
    forall s | s in x.signals ensures !s.IsOpen() { assert !IsVariable(s); }
  }

  /** The pins of `n` are the same in both netlists. */
  ghost predicate SamePins(a: Netlist, b: Netlist, n: NexusId)
  {
    && n in a.nexus && n in b.nexus && a.nexus[n] == b.nexus[n]
    && (forall id, k :: Pin(b, id, k, n) ==> Pin(a, id, k, n) && b.nodes[id] == a.nodes[id])
    && (forall id, k :: Pin(a, id, k, n) ==> Pin(b, id, k, n))
  }

  /** Away from the nexus whose driver was replaced, the pins are the same. */
  lemma PinsElsewhere(a: Netlist, b: Netlist, gone: set<NodeId>, added: map<NodeId, Node>, new_: set<NexusId>,
                      q: NexusId, n: NexusId)
    requires Swapped(a, b, gone, added, new_, q) && n in a.nexus && n != q
    ensures SamePins(a, b, n)
  {
    hide WellFormed, AllZ;
    forall id, k | Pin(b, id, k, n) ensures Pin(a, id, k, n) && b.nodes[id] == a.nodes[id] {
      assert id in added ==> AddedNode(a, added[id], gone, new_, q);
      assert id !in added;
    }
    forall id, k | Pin(a, id, k, n) ensures Pin(b, id, k, n) {
      assert id in gone ==> GoneNode(a, id, q);
      assert id !in gone;
    }
  }

  lemma PinsSame(a: Netlist, n: NexusId)
    requires n in a.nexus
    ensures SamePins(a, a, n)
  {
  }

  lemma OutputPin(nl: Netlist, id: NodeId, k: nat, n: NexusId)
    requires Pin(nl, id, k, n) && !HasPassive(nl, n)
    ensures n in nl.nodes[id].Outputs()
  {
    var node := nl.nodes[id];
    assert n !in node.Passive();
  }

  /** The only pin on a nexus with one constant driver is pin 0 of that driver. */
  lemma SoleDriver(a: Netlist, order: seq<NodeId>, n: NexusId, fuel: nat, id: NodeId, k: nat)
    requires Lists(a, order) && DriversConstant(a, order, n, fuel) && Pin(a, id, k, n)
    ensures OutLinks(a.nodes, order, n) == [id] && k == 0 && PullCount(a.nexus[n].signals) == 0
    ensures ConstantNode(a, order, id, fuel)
  {
    OutputPin(a, id, k, n);
    OutLinksMeaning(a.nodes, order, n, id);
    var ds := OutLinks(a.nodes, order, n);
    assert ds == [ds[0]];
  }

  lemma DrivenFromOutside(b: Netlist, w: World, v: Valuation, n: NexusId, i: nat)
    requires n in b.nexus && forall id, k :: !Pin(b, id, k, n)
    ensures Resolved(b, w, v, n, i) == if b.nexus[n].IsOpen() then BitAt(w.outside(n), i) else Vz
  {
  }

  lemma DrivenByOne(b: Netlist, w: World, v: Valuation, n: NexusId, i: nat, id: NodeId)
    requires n in b.nexus && !b.nexus[n].IsOpen() && Pin(b, id, 0, n)
    requires forall id', k :: Pin(b, id', k, n) ==> id' == id && k == 0
    ensures Resolved(b, w, v, n, i) == DriverBit(w, v, id, b.nodes[id], 0, i)
  {
    var bit := DriverBit(w, v, id, b.nodes[id], 0, i);
    assert bit != Vz ==> Driven(b, w, v, n, i, bit);
    assert forall x :: Driven(b, w, v, n, i, x) ==> x == bit;
  }

  /** The driver of `q` is none the analysis looks through. */
  predicate Opaque(a: Netlist, q: NexusId)
  {
    exists id :: id in a.nodes && q in a.nodes[id].Outputs() && !a.nodes[id].Const? && !a.nodes[id].Substitute?
  }

  lemma OpaqueNotConstant(a: Netlist, order: seq<NodeId>, q: NexusId, fuel: nat)
    requires Lists(a, order) && Opaque(a, q)
    ensures !DriversConstant(a, order, q, fuel)
  {
    var id :| id in a.nodes && q in a.nodes[id].Outputs() && !a.nodes[id].Const? && !a.nodes[id].Substitute?;
    OutLinksMeaning(a.nodes, order, q, id);
  }

  /** `b` has the pins of `a` on every nexus but `q`. */
  ghost predicate SameBut(a: Netlist, b: Netlist, q: NexusId)
  {
    forall n :: n in a.nexus && n != q ==> SamePins(a, b, n)
  }

  /** Main result: what a nexus found constant carries in every consistent valuation, also after the opaque
      driver of another nexus has been replaced. It is the driven vector wherever `AsDriven` holds. */
  lemma {:induction false} ConstantMeaning(a: Netlist, b: Netlist, order: seq<NodeId>, q: NexusId, w: World,
                                           v: Valuation, n: NexusId, fuel: nat)
    requires WellFormed(a) && Lists(a, order) && Opaque(a, q) && SameBut(a, b, q)
    requires Consistent(b, w, v) && DriversConstant(a, order, n, fuel)
    ensures n in a.nexus && n != q && Get(v, n) == CarriedVector(a, w, order, n, fuel)
    decreases fuel, 1
  {
    hide Consistent, NexusHolds, Driven, Resolved, Pulled, DriverBit, DriversConstant, CarriedVector, NodeFits;
    OpaqueNotConstant(a, order, q, fuel);
    assert n in a.nexus by { ConstantIsNexus(a, order, n, fuel); }
    assert SamePins(a, b, n);
    ConstantWidth(a, w, order, n, fuel);
    ConsistentAt(b, w, v, n);
    forall i: nat | i < a.nexus[n].width
      ensures BitAt(Get(v, n), i) == BitAt(CarriedVector(a, w, order, n, fuel), i)
    {
      ConstantBit(a, b, order, q, w, v, n, fuel, i);
    }
    VectorsEqual(Get(v, n), CarriedVector(a, w, order, n, fuel));
  }

  lemma VectorsEqual(x: Vec, y: Vec)
    requires |x| == |y| && forall i: nat :: i < |x| ==> BitAt(x, i) == BitAt(y, i)
    ensures x == y
  {
    forall i | 0 <= i < |x| ensures x[i] == y[i] { assert BitAt(x, i) == BitAt(y, i); }
  }

  lemma ConstantIsNexus(a: Netlist, order: seq<NodeId>, n: NexusId, fuel: nat)
    requires DriversConstant(a, order, n, fuel)
    ensures n in a.nexus && !SomeVariable(a.nexus[n].signals)
  {
  }

  lemma ConsistentAt(b: Netlist, w: World, v: Valuation, n: NexusId)
    requires Consistent(b, w, v) && n in b.nexus
    ensures |Get(v, n)| == b.nexus[n].width
    ensures forall i: nat :: i < b.nexus[n].width ==>
      BitAt(Get(v, n), i) == Pulled(b.nexus[n].signals, Resolved(b, w, v, n, i))
  {
    assert NexusHolds(b, w, v, n);
  }

  lemma {:induction false} ConstantWidth(a: Netlist, w: World, order: seq<NodeId>, n: NexusId, fuel: nat)
    requires WellFormed(a) && DriversConstant(a, order, n, fuel)
    ensures n in a.nexus && |CarriedVector(a, w, order, n, fuel)| == a.nexus[n].width
    ensures |DrivenVector(a, order, n, fuel)| == a.nexus[n].width
    decreases fuel
  {
    var ds := OutLinks(a.nodes, order, n);
    if |ds| > 0 {
      assert ds[0] in ds;
      OutLinksMeaning(a.nodes, order, n, ds[0]);
      assert NodeFits(a, a.nodes[ds[0]]);
      if a.nodes[ds[0]].Substitute? { ConstantWidth(a, w, order, a.nodes[ds[0]].whole, fuel - 1); }
    }
  }

  lemma ConstantBit(a: Netlist, b: Netlist, order: seq<NodeId>, q: NexusId, w: World, v: Valuation, n: NexusId,
                    fuel: nat, i: nat)
    requires WellFormed(a) && Lists(a, order) && Opaque(a, q) && SameBut(a, b, q)
    requires Consistent(b, w, v) && DriversConstant(a, order, n, fuel)
    requires n in a.nexus && n != q && SamePins(a, b, n) && i < a.nexus[n].width
    ensures Pulled(b.nexus[n].signals, Resolved(b, w, v, n, i)) == BitAt(CarriedVector(a, w, order, n, fuel), i)
    decreases fuel, 0, 1
  {
    hide Consistent, Driven, Resolved, Pulled, WellFormed, DriversConstant, CarriedVector, DriverBit;
    ConstantIsNexus(a, order, n, fuel);
    if id, k :| Pin(a, id, k, n) {
      SoleDriver(a, order, n, fuel, id, k);
      OnlyPin(a, order, n, fuel, id);
      NotOpen(a.nexus[n]);
      assert Pin(b, id, 0, n);
      DrivenByOne(b, w, v, n, i, id);
      NoPulls(a.nexus[n].signals, DriverBit(w, v, id, b.nodes[id], 0, i));
      SoleDriverBit(a, b, order, q, w, v, n, fuel, i, id);
    } else {
      DrivenFromOutside(b, w, v, n, i);
      NobodyVector(a, w, order, n, fuel, i);
    }
  }

  lemma OnlyPin(a: Netlist, order: seq<NodeId>, n: NexusId, fuel: nat, id: NodeId)
    requires Lists(a, order) && DriversConstant(a, order, n, fuel) && OutLinks(a.nodes, order, n) == [id]
    ensures forall id', k :: Pin(a, id', k, n) ==> id' == id && k == 0
  {
    forall id', k | Pin(a, id', k, n) ensures id' == id && k == 0 { SoleDriver(a, order, n, fuel, id', k); }
  }

  lemma NobodyVector(a: Netlist, w: World, order: seq<NodeId>, n: NexusId, fuel: nat, i: nat)
    requires DriversConstant(a, order, n, fuel) && n in a.nexus && i < a.nexus[n].width
    requires forall id, k :: !Pin(a, id, k, n)
    ensures Pulled(a.nexus[n].signals, if a.nexus[n].IsOpen() then BitAt(w.outside(n), i) else Vz)
         == BitAt(CarriedVector(a, w, order, n, fuel), i)
  {
    NoOutLinks(a, order, n);
    var x := a.nexus[n];
    if PullCount(x.signals) == 0 {
      NotOpen(x);
      NoPulls(x.signals, Vz);
    } else {
      OnePull(x, BitAt(w.outside(n), i));
    }
  }

  lemma NoOutLinks(a: Netlist, order: seq<NodeId>, n: NexusId)
    requires forall id, k :: !Pin(a, id, k, n)
    ensures OutLinks(a.nodes, order, n) == []
  {
    var ds := OutLinks(a.nodes, order, n);
    if |ds| > 0 {
      OutLinksMeaning(a.nodes, order, n, ds[0]);
      var outs := a.nodes[ds[0]].Outputs();
      var k: nat :| k < |outs| && outs[k] == n;
      assert Pin(a, ds[0], k, n);
    }
  }

  lemma VectorOfConst(a: Netlist, w: World, order: seq<NodeId>, n: NexusId, fuel: nat, id: NodeId)
    requires n in a.nexus && PullCount(a.nexus[n].signals) == 0 && OutLinks(a.nodes, order, n) == [id]
    requires id in a.nodes
    ensures a.nodes[id].Const? ==> CarriedVector(a, w, order, n, fuel) == a.nodes[id].value
    ensures a.nodes[id].Substitute? && fuel > 0 ==>
      CarriedVector(a, w, order, n, fuel) == Overlay(CarriedVector(a, w, order, a.nodes[id].whole, fuel - 1),
                                                    CarriedVector(a, w, order, a.nodes[id].part, fuel - 1),
                                                    a.nodes[id].base)
  {
  }

  lemma SoleDriverBit(a: Netlist, b: Netlist, order: seq<NodeId>, q: NexusId, w: World, v: Valuation, n: NexusId,
                      fuel: nat, i: nat, id: NodeId)
    requires WellFormed(a) && Lists(a, order) && Opaque(a, q) && SameBut(a, b, q)
    requires Consistent(b, w, v) && id in a.nodes && id in b.nodes && a.nodes[id] == b.nodes[id]
    requires n in a.nexus && PullCount(a.nexus[n].signals) == 0 && OutLinks(a.nodes, order, n) == [id]
    requires ConstantNode(a, order, id, fuel) && i < a.nexus[n].width
    ensures DriverBit(w, v, id, b.nodes[id], 0, i) == BitAt(CarriedVector(a, w, order, n, fuel), i)
    decreases fuel, 0, 0
  {
    hide Consistent, CarriedVector, DriversConstant, NodeFits, Opaque, Exposed;
    var node := a.nodes[id];
    VectorOfConst(a, w, order, n, fuel, id);
    if node.Substitute? {
      OutLinksMeaning(a.nodes, order, n, id);
      SubstituteFits(a, id, n);
      ConstantMeaning(a, b, order, q, w, v, node.whole, fuel - 1);
      ConstantMeaning(a, b, order, q, w, v, node.part, fuel - 1);
      ConsistentAt(b, w, v, node.whole);
      ConsistentAt(b, w, v, node.part);
    }
  }

  lemma SubstituteFits(a: Netlist, id: NodeId, n: NexusId)
    requires WellFormed(a) && id in a.nodes && a.nodes[id].Substitute? && n in a.nodes[id].Outputs()
    ensures var node := a.nodes[id];
      && n in a.nexus && node.whole in a.nexus && node.part in a.nexus
      && a.nexus[node.whole].width == a.nexus[n].width && a.nexus[node.part].width == node.wid
      && node.base + node.wid <= a.nexus[n].width
  {
    assert NodeFits(a, a.nodes[id]);
  }

  // ----- when that is the driven vector -----

  /** An outside that drives x wherever it can. */
  function Shouting(nl: Netlist): World
  {
    World((kind, ins: seq<Vec>, passive: seq<Vec>, drives: seq<Vec>) => true, (id, k) => [],
          n => if n in nl.nexus then Fill(Vx, nl.nexus[n].width) else [])
  }

  lemma DrivenWidth(a: Netlist, order: seq<NodeId>, n: NexusId, fuel: nat)
    requires WellFormed(a) && DriversConstant(a, order, n, fuel)
    ensures n in a.nexus && |DrivenVector(a, order, n, fuel)| == a.nexus[n].width
  {
    hide WellFormed, DriversConstant, DrivenVector, CarriedVector;
    ConstantWidth(a, Shouting(a), order, n, fuel);
  }

  lemma OverlayBit(under: Vec, over: Vec, base: nat, i: nat)
    requires i < |under|
    ensures BitAt(Overlay(under, over, base), i)
         == if base <= i < base + |over| then BitAt(over, i - base) else BitAt(under, i)
  {
  }

  /** A bit that is not exposed is as driven; an exposed one is defined, but x when the outside says so. */
  lemma {:induction false} ExposedBit(a: Netlist, w: World, order: seq<NodeId>, n: NexusId, fuel: nat, i: nat)
    requires WellFormed(a) && DriversConstant(a, order, n, fuel) && n in a.nexus && i < a.nexus[n].width
    ensures !Exposed(a, order, n, fuel, i) ==>
      BitAt(CarriedVector(a, w, order, n, fuel), i) == BitAt(DrivenVector(a, order, n, fuel), i)
    ensures Exposed(a, order, n, fuel, i) ==>
      && IsDefinedBit(BitAt(DrivenVector(a, order, n, fuel), i))
      && BitAt(CarriedVector(a, Shouting(a), order, n, fuel), i) == Vx
    decreases fuel
  {
    var ds := OutLinks(a.nodes, order, n);
    if PullCount(a.nexus[n].signals) > 0 {
      assert BitAt(Shouting(a).outside(n), i) == Vx;
    } else if |ds| > 0 {
      assert ds == [ds[0]];
      OutLinksMeaning(a.nodes, order, n, ds[0]);
      if a.nodes[ds[0]].Substitute? { ExposedOverlay(a, w, order, n, fuel, i, ds[0]); }
    }
  }

  lemma ExposedOverlay(a: Netlist, w: World, order: seq<NodeId>, n: NexusId, fuel: nat, i: nat, id: NodeId)
    requires WellFormed(a) && n in a.nexus && i < a.nexus[n].width && fuel > 0
    requires id in a.nodes && a.nodes[id].Substitute? && n in a.nodes[id].Outputs()
    requires ConstantNode(a, order, id, fuel)
    requires PullCount(a.nexus[n].signals) == 0 && OutLinks(a.nodes, order, n) == [id]
    ensures !Exposed(a, order, n, fuel, i) ==>
      BitAt(CarriedVector(a, w, order, n, fuel), i) == BitAt(DrivenVector(a, order, n, fuel), i)
    ensures Exposed(a, order, n, fuel, i) ==>
      && IsDefinedBit(BitAt(DrivenVector(a, order, n, fuel), i))
      && BitAt(CarriedVector(a, Shouting(a), order, n, fuel), i) == Vx
    decreases fuel, 0
  {
    hide WellFormed, DriversConstant, Overlay;
    var s := a.nodes[id];
    SubstituteFits(a, id, n);
    if s.base <= i < s.base + s.wid {
      ExposedBit(a, w, order, s.part, fuel - 1, i - s.base);
    } else {
      ExposedBit(a, w, order, s.whole, fuel - 1, i);
    }
    OverlayBits(a, w, order, s, fuel, i);
    OverlayBits(a, Shouting(a), order, s, fuel, i);
  }

  lemma OverlayBits(a: Netlist, w: World, order: seq<NodeId>, s: Node, fuel: nat, i: nat)
    requires WellFormed(a) && s.Substitute? && s.whole in a.nexus && s.part in a.nexus && fuel > 0
    requires i < a.nexus[s.whole].width && a.nexus[s.part].width == s.wid
    requires DriversConstant(a, order, s.whole, fuel - 1) && DriversConstant(a, order, s.part, fuel - 1)
    ensures BitAt(Overlay(CarriedVector(a, w, order, s.whole, fuel - 1),
                          CarriedVector(a, w, order, s.part, fuel - 1), s.base), i)
         == if s.base <= i < s.base + s.wid then BitAt(CarriedVector(a, w, order, s.part, fuel - 1), i - s.base)
            else BitAt(CarriedVector(a, w, order, s.whole, fuel - 1), i)
    ensures BitAt(Overlay(DrivenVector(a, order, s.whole, fuel - 1),
                          DrivenVector(a, order, s.part, fuel - 1), s.base), i)
         == if s.base <= i < s.base + s.wid then BitAt(DrivenVector(a, order, s.part, fuel - 1), i - s.base)
            else BitAt(DrivenVector(a, order, s.whole, fuel - 1), i)
  {
    hide WellFormed, DriversConstant, CarriedVector, DrivenVector, Overlay;
    ConstantWidth(a, w, order, s.whole, fuel - 1);
    ConstantWidth(a, w, order, s.part, fuel - 1);
    OverlayBit(CarriedVector(a, w, order, s.whole, fuel - 1), CarriedVector(a, w, order, s.part, fuel - 1), s.base, i);
    OverlayBit(DrivenVector(a, order, s.whole, fuel - 1), DrivenVector(a, order, s.part, fuel - 1), s.base, i);
  }

  /** Main result: a nexus found constant carries the driven vector whatever the outside does exactly when no
      bit of it comes from a tri0 or tri1 port of the root. */
  lemma AsDrivenExactlyWhen(a: Netlist, order: seq<NodeId>, n: NexusId, fuel: nat)
    requires WellFormed(a) && DriversConstant(a, order, n, fuel)
    ensures (forall w: World :: AsDriven(a, w, order, n, fuel)) <==> !SomeExposed(a, order, n, fuel)
  {
    hide WellFormed, DriversConstant, CarriedVector, DrivenVector, Exposed;
    ConstantIsNexus(a, order, n, fuel);
    if SomeExposed(a, order, n, fuel) {
      var i :| 0 <= i < a.nexus[n].width && Exposed(a, order, n, fuel, i);
      ExposedBit(a, Shouting(a), order, n, fuel, i);
      assert !AsDriven(a, Shouting(a), order, n, fuel);
    } else {
      forall w: World ensures AsDriven(a, w, order, n, fuel) { HiddenIsDriven(a, w, order, n, fuel); }
    }
  }

  lemma HiddenIsDriven(a: Netlist, w: World, order: seq<NodeId>, n: NexusId, fuel: nat)
    requires WellFormed(a) && DriversConstant(a, order, n, fuel) && !SomeExposed(a, order, n, fuel)
    ensures AsDriven(a, w, order, n, fuel)
  {
    hide WellFormed, DriversConstant, CarriedVector, DrivenVector, Exposed;
    ConstantWidth(a, w, order, n, fuel);
    forall i: nat | i < a.nexus[n].width
      ensures BitAt(CarriedVector(a, w, order, n, fuel), i) == BitAt(DrivenVector(a, order, n, fuel), i)
    {
      ExposedBit(a, w, order, n, fuel, i);
    }
    VectorsEqual(CarriedVector(a, w, order, n, fuel), DrivenVector(a, order, n, fuel));
  }

  /** No tri0 or tri1 port of the root anywhere. */
  predicate QuietPorts(a: Netlist) { forall n :: n in a.nexus ==> !SomePullingPort(a.nexus[n].signals) }

  lemma {:induction false} QuietHidden(a: Netlist, order: seq<NodeId>, n: NexusId, fuel: nat, i: nat)
    requires QuietPorts(a)
    ensures !Exposed(a, order, n, fuel, i)
    decreases fuel
  {
    if n in a.nexus {
      var ds := OutLinks(a.nodes, order, n);
      if |ds| > 0 && ds[0] in a.nodes && a.nodes[ds[0]].Substitute? && fuel > 0 {
        var s := a.nodes[ds[0]];
        if s.base <= i < s.base + s.wid { QuietHidden(a, order, s.part, fuel - 1, i - s.base); }
        else { QuietHidden(a, order, s.whole, fuel - 1, i); }
      }
    }
  }

  lemma QuietIsDriven(a: Netlist, w: World, order: seq<NodeId>, n: NexusId, fuel: nat)
    requires WellFormed(a) && DriversConstant(a, order, n, fuel) && QuietPorts(a)
    ensures AsDriven(a, w, order, n, fuel)
  {
    hide WellFormed, DriversConstant, QuietPorts, AsDriven, Exposed;
    forall i: nat ensures !Exposed(a, order, n, fuel, i) { QuietHidden(a, order, n, fuel, i); }
    HiddenIsDriven(a, w, order, n, fuel);
  }
}
