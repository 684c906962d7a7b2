/** Concatenations as assignment targets: the linked list of l-values, and the part selects of a structural
    target. */
module LValues {
  import opened Logic4

  /** Bits `base` to `base + wid - 1` of a signal. */
  datatype Item = Item(sig: nat, base: nat, wid: nat)

  /** A target expression. `Bad` is one whose own elaboration fails. */
  datatype LExpr =
    | Select(item: Item, signed: bool, isReal: bool)
    | Bad
    | Empty
    | Concat(parms: seq<LExpr>, repeat: bool)
  {
    /** An operand that a concatenation leaves out, with an error. */
    predicate Skipped() { Bad? || Empty? || (Select? && isReal) || (Concat? && repeat) }
  }

  // ----- what a concatenation stands for -----

  /** The targets, least significant first. */
  function Flatten(e: LExpr): seq<Item>
    decreases e, 1
  {
    match e
    case Select(item, _, _) => [item]
    case Concat(parms, repeat) => if repeat then [] else FlattenAll(parms)
    case _ => []
  }

  function FlattenAll(parms: seq<LExpr>): seq<Item>
    decreases parms, 0
  {
    if |parms| == 0 then []
    else FlattenAll(parms[1..]) + (if parms[0].Skipped() then [] else Flatten(parms[0]))
  }

  /** No operand anywhere is in error. */
  predicate Proper(e: LExpr)
  {
    match e
    case Select(_, _, _) => true
    case Concat(parms, repeat) => !repeat && forall p :: p in parms ==> !p.Skipped() && Proper(p)
    case _ => false
  }

  lemma {:induction false} FlattenSnoc(parms: seq<LExpr>, p: LExpr)
    ensures FlattenAll(parms + [p]) == (if p.Skipped() then [] else Flatten(p)) + FlattenAll(parms)
    decreases |parms|
  {
    if |parms| == 0 {
      assert (parms + [p])[1..] == [];
    } else {
      assert (parms + [p])[1..] == parms[1..] + [p];
      FlattenSnoc(parms[1..], p);
    }
  }

  // ----- the linked list -----

  class NetAssign {
    const item: Item
    const isReal: bool
    var signed: bool
    var more: NetAssign?

    constructor (item: Item, signed: bool, isReal: bool)
      ensures this.item == item && this.signed == signed && this.isReal == isReal && more == null
    {
      this.item, this.signed, this.isReal := item, signed, isReal;
      more := null;
    }
  }

  ghost function Nodes(nodes: seq<NetAssign>): set<NetAssign> { set n | n in nodes }

  /** `head` starts a list that runs through exactly `nodes`. */
  ghost predicate IsChain(head: NetAssign?, nodes: seq<NetAssign>)
    reads Nodes(nodes)`more
  {
    && (forall i, j :: 0 <= i < j < |nodes| ==> nodes[i] != nodes[j])
    && head == (if |nodes| == 0 then null else nodes[0])
    && forall i :: 0 <= i < |nodes| ==> nodes[i].more == if i + 1 < |nodes| then nodes[i + 1] else null
  }

  ghost function Items(nodes: seq<NetAssign>): (r: seq<Item>)
    ensures |r| == |nodes|
  { seq(|nodes|, i requires 0 <= i < |nodes| => nodes[i].item) }

  ghost function Next(nodes: seq<NetAssign>, k: nat): NetAssign? { if k + 1 < |nodes| then nodes[k + 1] else null }

  /** Links the list `head` in front of the list `rest`. */
  method Splice(head: NetAssign, ghost nodes: seq<NetAssign>, rest: NetAssign?, ghost restNodes: seq<NetAssign>)
    requires IsChain(head, nodes) && IsChain(rest, restNodes) && Nodes(nodes) !! Nodes(restNodes)
    modifies Nodes(nodes)`more
    ensures IsChain(head, nodes + restNodes)
  {
    var last := head;
    ghost var k := 0;
    while last.more != null
      invariant 0 <= k < |nodes| && last == nodes[k] && IsChain(head, nodes)
      invariant last.more == Next(nodes, k)
      decreases |nodes| - k
    {
      last := last.more;
      k := k + 1;
    }
    assert |nodes| == k + 1;
    last.more := rest;
    ghost var all := nodes + restNodes;
    assert all[0] == nodes[0] == head;
    forall i, j | 0 <= i < j < |all| ensures all[i] != all[j] {
      if i < |nodes| <= j { assert all[i] in Nodes(nodes) && all[j] in Nodes(restNodes); }
      else if j >= |nodes| { assert restNodes[i - |nodes|] != restNodes[j - |nodes|]; }
    }
    forall i | 0 <= i < |all| ensures all[i].more == if i + 1 < |all| then all[i + 1] else null {
      if i < k {
        assert all[i] == nodes[i] && nodes[i] != nodes[k] && all[i + 1] == nodes[i + 1];
      } else if i > k {
        var i' := i - |nodes|;
        assert all[i] == restNodes[i'] && all[i] in Nodes(restNodes) && last in Nodes(nodes);
        assert restNodes[i'].more == if i' + 1 < |restNodes| then restNodes[i' + 1] else null;
      }
    }
    assert forall i, j :: 0 <= i < j < |all| ==> all[i] != all[j];
    assert head == if |all| == 0 then null else all[0];
    assert forall i :: 0 <= i < |all| ==> all[i].more == if i + 1 < |all| then all[i + 1] else null;
    assert IsChain(head, all);
  }

  ghost predicate Plain(nodes: seq<NetAssign>)
    reads nodes
  { forall n :: n in nodes ==> !n.signed && !n.isReal }

  /** One operand of a concatenation: elaborates it and links it in front of the operands before it. */
  method ElaborateOperand(p: LExpr, rest: NetAssign?, ghost restNodes: seq<NetAssign>)
    returns (res: NetAssign?, ghost nodes: seq<NetAssign>, errors: nat)
    requires IsChain(rest, restNodes) && Plain(restNodes)
    ensures IsChain(res, nodes) && Plain(nodes) && fresh(Nodes(nodes) - Nodes(restNodes))
    ensures Items(nodes) == (if p.Skipped() then [] else Flatten(p)) + Items(restNodes)
    ensures errors == 0 <==> !p.Skipped() && Proper(p)
    decreases p, 2
  {
    res, nodes := rest, restNodes;
    if p.Empty? { return res, nodes, 1; }
    var tmp, tmpNodes, found := ElaborateLval(p);
    errors := found;
    HeadOf(tmp, tmpNodes);
    if tmp == null {
      assert Items(tmpNodes) == [];
      assert Items(nodes) == [] + Items(restNodes);
      return;
    }
    assert tmp in Nodes(tmpNodes);
    if tmp.isReal {
      assert tmp in tmpNodes;
      assert Items(nodes) == [] + Items(restNodes);
      errors := errors + 1;
      return;
    }
    tmp.signed := false;
    assert IsChain(tmp, tmpNodes);
    assert IsChain(rest, restNodes);
    assert Nodes(tmpNodes) !! Nodes(restNodes);
    Splice(tmp, tmpNodes, rest, restNodes);
    assert Items(tmpNodes + restNodes) == Items(tmpNodes) + Items(restNodes);
    nodes := tmpNodes + restNodes;
    res := tmp;
  }

  /** PEConcat::elaborate_lval and, for a select, its result. Main result: the list is the flattening, least
      significant target first, and there is an error exactly when some operand is in error. */
  method ElaborateLval(e: LExpr) returns (res: NetAssign?, ghost nodes: seq<NetAssign>, errors: nat)
    ensures IsChain(res, nodes) && fresh(Nodes(nodes)) && Items(nodes) == Flatten(e)
    ensures errors == 0 <==> Proper(e)
    ensures !e.Select? ==> Plain(nodes)
    ensures e.Select? ==> |nodes| == 1 && nodes[0].isReal == e.isReal && nodes[0].signed == e.signed
    decreases e, 1
  {
    res, nodes, errors := null, [], 0;
    match e
    case Bad => errors := 1;
    case Empty => errors := 1;
    case Select(item, signed, isReal) =>
      res := new NetAssign(item, signed, isReal);
      nodes := [res];
    case Concat(parms, repeat) =>
      if repeat { errors := 1; return; }
      res, nodes, errors := ElaborateAll(parms, e);
  }

  method ElaborateAll(parms: seq<LExpr>, ghost e: LExpr)
    returns (res: NetAssign?, ghost nodes: seq<NetAssign>, errors: nat)
    requires forall p :: p in parms ==> p < e
    ensures IsChain(res, nodes) && fresh(Nodes(nodes)) && Items(nodes) == FlattenAll(parms) && Plain(nodes)
    ensures errors == 0 <==> forall p :: p in parms ==> !p.Skipped() && Proper(p)
    decreases e, 0
  {
    res, nodes, errors := null, [], 0;
    var idx := 0;
    assert IsChain(res, nodes) && Plain(nodes) && Nodes(nodes) == {};
    hide IsChain, Plain, Proper, Flatten, FlattenAll;
    NoneFlat();
    while idx < |parms|
      invariant 0 <= idx <= |parms|
      invariant IsChain(res, nodes) && fresh(Nodes(nodes)) && Items(nodes) == FlattenAll(parms[..idx]) && Plain(nodes)
      invariant errors == 0 <==> forall p :: p in parms[..idx] ==> !p.Skipped() && Proper(p)
    {
      assert parms[..idx + 1] == parms[..idx] + [parms[idx]];
      FlattenSnoc(parms[..idx], parms[idx]);
      assert parms[idx] in parms;
      var found;
      res, nodes, found := ElaborateOperand(parms[idx], res, nodes);
      errors := errors + found;
      idx := idx + 1;
    }
    assert parms[..idx] == parms;
  }

  lemma HeadOf(head: NetAssign?, nodes: seq<NetAssign>)
    requires IsChain(head, nodes)
    ensures head == null <==> |nodes| == 0
    ensures |nodes| > 0 ==> head == nodes[0] && head in Nodes(nodes)
  {
  }

  lemma NoneFlat()
    ensures FlattenAll([]) == []
  {
  }
}
