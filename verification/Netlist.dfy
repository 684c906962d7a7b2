/** A netlist: nodes whose pins are tied together by nexuses, possibly in cycles, and the
    four-state values its nexuses can consistently carry. */
module Netlists {
  import opened Logic4

  type NexusId = nat
  type NodeId = nat

  datatype NetKind = Wire | Reg | Supply0 | Supply1 | Tri0 | Tri1
  datatype PortKind = NotAPort | InputPort | OutputPort | InoutPort

  /** A signal attached to a nexus. `lref` counts procedural drivers, `eref` expression readers. */
  datatype Signal = Signal(kind: NetKind, local: bool, lref: nat, eref: nat, port: PortKind, inRoot: bool)
  {
    predicate PullsDown() { kind.Supply0? || kind.Tri0? }
    predicate PullsUp() { kind.Supply1? || kind.Tri1? }

    /** The outside of the design may drive the signal. */
    predicate FromOutside() { inRoot && (port.InputPort? || port.InoutPort?) }

    /** Something outside the nodes may drive the nexus through this signal. */
    predicate IsOpen() { lref > 0 || kind.Reg? || FromOutside() }

    /** Somebody may look at the signal. */
    predicate IsSeen() { !local || eref > 0 || (port != NotAPort && inRoot) }
  }

  datatype Nexus = Nexus(width: nat, signals: seq<Signal>)
  {
    predicate IsOpen() { exists s :: s in signals && s.IsOpen() }
    predicate IsSeen() { exists s :: s in signals && s.IsSeen() }
  }

  /** A flip-flop reads its data on its first input; it is controlled when a set or clear pin is connected. */
  datatype DeviceKind = Other(tag: nat) | Flop(tag: nat, controlled: bool)

  /** `Device` stands for every node whose function constant propagation does not look into: logic,
      arithmetic, part selects out of a vector, flip-flops; with passive pins, bidirectional switches. */
  datatype Node =
    | Const(value: Vec, q: NexusId)
    | Concat(width: nat, transparent: bool, q: NexusId, parts: seq<NexusId>)
    | Mux(width: nat, selWidth: nat, q: NexusId, sel: NexusId, data: seq<NexusId>)
    | Bufz(width: nat, q: NexusId, d: NexusId)
    | PartPV(base: nat, wid: nat, part: NexusId, q: NexusId)
    | Substitute(base: nat, wid: nat, q: NexusId, whole: NexusId, part: NexusId)
    | Device(kind: DeviceKind, ins: seq<NexusId>, outs: seq<NexusId>, passive: seq<NexusId>)
  {
    function Inputs(): seq<NexusId>
    {
      match this
      case Const(_, _) => []
      case Concat(_, _, _, parts) => parts
      case Mux(_, _, _, sel, data) => [sel] + data
      case Bufz(_, _, d) => [d]
      case PartPV(_, _, part, _) => [part]
      case Substitute(_, _, _, whole, part) => [whole, part]
      case Device(_, ins, _, _) => ins
    }

    function Outputs(): seq<NexusId> { if Device? then outs else [q] }

    function Passive(): seq<NexusId> { if Device? then passive else [] }

    /** The pins through which the node may drive. */
    function Drives(): seq<NexusId> { Outputs() + Passive() }
  }

  datatype Netlist = Netlist(nodes: map<NodeId, Node>, nexus: map<NexusId, Nexus>)

  type Valuation = map<NexusId, Vec>

  /** Everything a netlist leaves open: how devices behave, what they drive at a moment in time, and
      what processes and the outside world drive. */
  datatype World = World(
    behaves: (DeviceKind, seq<Vec>, seq<Vec>, seq<Vec>) -> bool,
    drive: (NodeId, nat) -> Vec,
    outside: NexusId -> Vec)

  // ----- values -----

  function BitAt(v: Vec, i: nat): V { if i < |v| then v[i] else Vz }

  function Get(val: Valuation, n: NexusId): Vec { if n in val then val[n] else [] }

  /** Concatenation, least significant part first. */
  function Join(val: Valuation, parts: seq<NexusId>): Vec
  {
    if |parts| == 0 then [] else Get(val, parts[0]) + Join(val, parts[1..])
  }

  function MuxBit(sel: Vec, data: seq<Vec>, i: nat): V
  {
    if Defined(sel) then (if ToNat(sel) < |data| then BitAt(data[ToNat(sel)], i) else Vx)
    else if |data| == 2 then MergeBit(BitAt(data[0], i), BitAt(data[1], i))
    else Vx
  }

  function Values(val: Valuation, ns: seq<NexusId>): (r: seq<Vec>)
    ensures |r| == |ns|
  { seq(|ns|, i requires 0 <= i < |ns| => Get(val, ns[i])) }

  /** The bit that pin `k` of a node drives at position `i`. */
  function DriverBit(w: World, val: Valuation, id: NodeId, node: Node, k: nat, i: nat): V
  {
    match node
    case Const(value, _) => BitAt(value, i)
    case Concat(_, _, _, parts) => BitAt(Join(val, parts), i)
    case Mux(_, _, _, sel, data) => MuxBit(Get(val, sel), Values(val, data), i)
    case Bufz(_, _, d) => BitAt(Get(val, d), i)
    case PartPV(base, wid, part, _) => if base <= i < base + wid then BitAt(Get(val, part), i - base) else Vz
    case Substitute(base, wid, _, whole, part) =>
      if base <= i < base + wid then BitAt(Get(val, part), i - base) else BitAt(Get(val, whole), i)
    case Device(_, _, _, _) => BitAt(w.drive(id, k), i)
  }

  /** An uncontrolled flip-flop whose data and output pins are tied together. */
  predicate SelfFed(node: Node)
  {
    && node.Device? && node.kind.Flop? && !node.kind.controlled
    && |node.ins| > 0 && |node.outs| == 1 && node.ins[0] == node.outs[0] && node.passive == []
  }

  predicate Pin(nl: Netlist, id: NodeId, k: nat, n: NexusId)
  {
    id in nl.nodes && k < |nl.nodes[id].Drives()| && nl.nodes[id].Drives()[k] == n
  }

  /** Some driver puts `b` on bit `i` of nexus `n`. */
  ghost predicate Driven(nl: Netlist, w: World, val: Valuation, n: NexusId, i: nat, b: V)
  {
    || (n in nl.nexus && nl.nexus[n].IsOpen() && BitAt(w.outside(n), i) == b)
    || exists id, k :: Pin(nl, id, k, n) && DriverBit(w, val, id, nl.nodes[id], k, i) == b
  }

  /** Wire resolution: z is the identity, disagreement is x. */
  ghost function Resolved(nl: Netlist, w: World, val: Valuation, n: NexusId, i: nat): V
  {
    if Driven(nl, w, val, n, i, Vx) || (Driven(nl, w, val, n, i, V0) && Driven(nl, w, val, n, i, V1)) then Vx
    else if Driven(nl, w, val, n, i, V0) then V0
    else if Driven(nl, w, val, n, i, V1) then V1
    else Vz
  }

  /** Pulls take over an undriven bit; a supply wins over everything. */
  function Pulled(signals: seq<Signal>, b: V): V
  {
    var down := exists s :: s in signals && s.PullsDown();
    var up := exists s :: s in signals && s.PullsUp();
    var supply := exists s :: s in signals && (s.kind.Supply0? || s.kind.Supply1?);
    if b != Vz && !supply then b
    else if down && up then Vx
    else if down then V0
    else if up then V1
    else b
  }

  /** The valuation satisfies the equation of every nexus and every device. */
  ghost predicate Consistent(nl: Netlist, w: World, val: Valuation)
  {
    && val.Keys == nl.nexus.Keys
    && (forall n :: n in nl.nexus ==> NexusHolds(nl, w, val, n))
    && (forall id :: id in nl.nodes && nl.nodes[id].Device? ==> DeviceHolds(w, val, id, nl.nodes[id]))
  }

  ghost predicate NexusHolds(nl: Netlist, w: World, val: Valuation, n: NexusId)
    requires n in nl.nexus
  {
    && |Get(val, n)| == nl.nexus[n].width
    && (forall i: nat :: i < nl.nexus[n].width ==>
          BitAt(Get(val, n), i) == Pulled(nl.nexus[n].signals, Resolved(nl, w, val, n, i)))
  }

  ghost predicate DeviceHolds(w: World, val: Valuation, id: NodeId, d: Node)
    requires d.Device?
  {
    w.behaves(d.kind, Values(val, d.ins), Values(val, d.passive),
              seq(|d.Drives()|, k requires 0 <= k => w.drive(id, k)))
  }

  // ----- well-formed netlists -----

  function TotalWidth(nl: Netlist, ns: seq<NexusId>): nat
  {
    if |ns| == 0 then 0
    else (if ns[0] in nl.nexus then nl.nexus[ns[0]].width else 0) + TotalWidth(nl, ns[1..])
  }

  predicate PinsExist(nl: Netlist, node: Node)
  {
    && (forall n :: n in node.Inputs() ==> n in nl.nexus)
    && (forall n :: n in node.Drives() ==> n in nl.nexus)
  }

  predicate NodeFits(nl: Netlist, node: Node)
  {
    && PinsExist(nl, node)
    && match node
       case Const(value, q) => |value| == nl.nexus[q].width
       case Concat(width, _, q, parts) => width == nl.nexus[q].width == TotalWidth(nl, parts)
       case Mux(width, sw, q, sel, data) =>
         && width == nl.nexus[q].width && sw == nl.nexus[sel].width
         && forall d :: d in data ==> nl.nexus[d].width == width
       case Bufz(width, q, d) => width == nl.nexus[q].width == nl.nexus[d].width
       case PartPV(_, wid, part, _) => 0 < wid == nl.nexus[part].width
       case Substitute(base, wid, q, whole, part) =>
         && nl.nexus[whole].width == nl.nexus[q].width && wid == nl.nexus[part].width
         && base + wid <= nl.nexus[q].width
       case Device(kind, ins, outs, passive) => kind.Flop? ==> |ins| > 0 && |outs| == 1 && passive == []
  }

  predicate WellFormed(nl: Netlist)
  {
    && (forall id :: id in nl.nodes ==> NodeFits(nl, nl.nodes[id]))
    && (forall n :: n in nl.nexus ==> |nl.nexus[n].signals| > 0)
  }

  // ----- what a rewrite must keep -----

  predicate HasInput(nl: Netlist, n: NexusId) { exists id :: id in nl.nodes && n in nl.nodes[id].Inputs() }

  predicate HasPassive(nl: Netlist, n: NexusId) { exists id :: id in nl.nodes && n in nl.nodes[id].Passive() }

  /** The nexus is read by a node, or one of its signals can be seen. */
  predicate Observed(nl: Netlist, n: NexusId)
  {
    n in nl.nexus && (HasInput(nl, n) || nl.nexus[n].IsSeen())
  }

  predicate Agree(a: Netlist, b: Netlist, v: Valuation, v': Valuation)
  {
    forall n :: n in a.nexus && Observed(b, n) ==> Get(v, n) == Get(v', n)
  }

  /** The old nexuses stay, and none becomes observed. */
  predicate Extends(a: Netlist, b: Netlist)
  {
    forall n :: n in a.nexus ==>
      n in b.nexus && b.nexus[n] == a.nexus[n] && (HasInput(b, n) ==> HasInput(a, n))
  }

  /** `v` on `a` has a counterpart on `b`. */
  ghost predicate Carried(w: World, a: Netlist, b: Netlist, v: Valuation)
  {
    exists v' :: Consistent(b, w, v') && Agree(a, b, v, v')
  }

  /** `v'` on `b` comes from a valuation of `a`. */
  ghost predicate Traced(w: World, a: Netlist, b: Netlist, v': Valuation)
  {
    exists v :: Consistent(a, w, v) && Agree(a, b, v, v')
  }

  ghost predicate Forward(w: World, a: Netlist, b: Netlist)
  {
    forall v :: Consistent(a, w, v) ==> Carried(w, a, b, v)
  }

  ghost predicate Backward(w: World, a: Netlist, b: Netlist)
  {
    forall v' :: Consistent(b, w, v') ==> Traced(w, a, b, v')
  }

  /** The consistent valuations of the two netlists are the same on what `b` observes. */
  ghost predicate Preserves(w: World, a: Netlist, b: Netlist)
  {
    Extends(a, b) && Forward(w, a, b) && Backward(w, a, b)
  }

  lemma PreservesReflexive(w: World, a: Netlist)
    ensures Preserves(w, a, a)
  {
    hide Consistent, Carried, Traced;
    forall v | Consistent(a, w, v) ensures Carried(w, a, a, v) && Traced(w, a, a, v) {
      SelfCarried(w, a, v);
    }
  }

  lemma SelfCarried(w: World, a: Netlist, v: Valuation)
    requires Consistent(a, w, v)
    ensures Carried(w, a, a, v) && Traced(w, a, a, v)
  {
    hide Consistent;
    assert Agree(a, a, v, v);
  }

  lemma AgreeTransitive(a: Netlist, b: Netlist, c: Netlist, v: Valuation, v': Valuation, v'': Valuation)
    requires Extends(a, b) && Extends(b, c) && Agree(a, b, v, v') && Agree(b, c, v', v'')
    ensures Agree(a, c, v, v'')
  {
  }

  lemma ExtendsTransitive(a: Netlist, b: Netlist, c: Netlist)
    requires Extends(a, b) && Extends(b, c)
    ensures Extends(a, c)
  {
  }

  lemma CarriedTransitive(w: World, a: Netlist, b: Netlist, c: Netlist, v: Valuation)
    requires Extends(a, b) && Extends(b, c) && Carried(w, a, b, v) && Forward(w, b, c)
    ensures Carried(w, a, c, v)
  {
    hide Consistent, Agree, Extends, Carried;
    UnfoldCarried(w, a, b, v);
    var v' :| Consistent(b, w, v') && Agree(a, b, v, v');
    UnfoldCarried(w, b, c, v');
    var v'' :| Consistent(c, w, v'') && Agree(b, c, v', v'');
    AgreeTransitive(a, b, c, v, v', v'');
    UnfoldCarried(w, a, c, v);
  }

  lemma UnfoldCarried(w: World, a: Netlist, b: Netlist, v: Valuation)
    ensures Carried(w, a, b, v) <==> exists v' :: Consistent(b, w, v') && Agree(a, b, v, v')
  {
  }

  lemma UnfoldTraced(w: World, a: Netlist, b: Netlist, v': Valuation)
    ensures Traced(w, a, b, v') <==> exists v :: Consistent(a, w, v) && Agree(a, b, v, v')
  {
  }

  lemma TracedTransitive(w: World, a: Netlist, b: Netlist, c: Netlist, v'': Valuation)
    requires Extends(a, b) && Extends(b, c) && Traced(w, b, c, v'') && Backward(w, a, b)
    ensures Traced(w, a, c, v'')
  {
    hide Consistent, Agree, Extends, Traced;
    UnfoldTraced(w, b, c, v'');
    var v' :| Consistent(b, w, v') && Agree(b, c, v', v'');
    UnfoldTraced(w, a, b, v');
    var v :| Consistent(a, w, v) && Agree(a, b, v, v');
    AgreeTransitive(a, b, c, v, v', v'');
    UnfoldTraced(w, a, c, v'');
  }

  /** Rewrites compose. */
  lemma PreservesTransitive(w: World, a: Netlist, b: Netlist, c: Netlist)
    requires Preserves(w, a, b) && Preserves(w, b, c)
    ensures Preserves(w, a, c)
  {
    hide Consistent, Extends, Carried, Traced;
    ExtendsTransitive(a, b, c);
    forall v | Consistent(a, w, v) ensures Carried(w, a, c, v) { CarriedTransitive(w, a, b, c, v); }
    forall v | Consistent(c, w, v) ensures Traced(w, a, c, v) { TracedTransitive(w, a, b, c, v); }
  }
}
