/** The design: its nodes on a list that a functor can scan while nodes come and go. */
module Designs {
  import opened Logic4
  import opened Netlists
  import opened Rewrites
  import opened MergeRewrite

  predicate Distinct(s: seq<NodeId>) { forall j, k :: 0 <= j < k < |s| ==> s[j] != s[k] }

  function Without(s: seq<NodeId>, j: nat): seq<NodeId>
    requires j < |s|
  { s[..j] + s[j + 1..] }

  /** The list holds every node once. */
  predicate OnList(nodes: map<NodeId, Node>, order: seq<NodeId>)
  {
    && Distinct(order)
    && (forall j :: 0 <= j < |order| ==> order[j] in nodes)
    && (forall id :: id in nodes ==> id in order)
  }

  lemma OnListAdd(nodes: map<NodeId, Node>, order: seq<NodeId>, id: NodeId, node: Node)
    requires OnList(nodes, order) && id !in nodes
    ensures OnList(nodes[id := node], order + [id])
  {
  }

  lemma OnListRemove(nodes: map<NodeId, Node>, order: seq<NodeId>, j: nat)
    requires OnList(nodes, order) && j < |order|
    ensures OnList(nodes - {order[j]}, Without(order, j))
  {
    var id, rest := order[j], Without(order, j);
    forall k | 0 <= k < |rest| ensures rest[k] in nodes - {id} && rest[k] == order[if k < j then k else k + 1] {}
    forall x | x in nodes - {id} ensures x in rest {
      var k :| 0 <= k < |order| && order[k] == x;
      assert rest[if k < j then k else k - 1] == x;
    }
  }

  /** `order'` and `next'` are the list and the position of a running scan after node `id` was deleted. */
  ghost predicate Delisted(order: seq<NodeId>, next: nat, order': seq<NodeId>, next': nat, id: NodeId)
  {
    exists j :: 0 <= j < |order| && order[j] == id && DelistedAt(order, next, order', next', j)
  }

  predicate DelistedAt(order: seq<NodeId>, next: nat, order': seq<NodeId>, next': nat, j: nat)
    requires j < |order|
  {
    && order' == Without(order, j)
    && next' == if j < next then next - 1 else if j == next == |order'| then 0 else next
  }

  lemma DelistedHere(order: seq<NodeId>, next: nat, order': seq<NodeId>, next': nat, j: nat)
    requires Distinct(order) && j < |order| && Delisted(order, next, order', next', order[j])
    ensures DelistedAt(order, next, order', next', j)
  {
  }

  class Design {
    var nodes: map<NodeId, Node>
    var nexus: map<NexusId, Nexus>
    /** The circular node list, oldest first: the list head of the source is the last element. */
    var order: seq<NodeId>
    /** Position of the node a running scan looks at next. */
    var functorNext: nat
    var nextNode: NodeId
    var nextNexus: NexusId

    ghost function Net(): Netlist
      reads this
    { Netlist(nodes, nexus) }

    ghost predicate Tidy()
      reads this
    { OnList(nodes, order) && Free(Net(), nextNode, nextNexus) }

    ghost predicate Valid()
      reads this
    { Tidy() && WellFormed(Net()) }

    /** Design::add_node */
    method AddNode(node: Node) returns (id: NodeId)
      requires Tidy()
      modifies this
      ensures Tidy() && id == old(nextNode) && nextNode == id + 1 && id !in old(nodes)
      ensures nodes == old(nodes)[id := node] && order == old(order) + [id]
      ensures nexus == old(nexus) && nextNexus == old(nextNexus) && functorNext == old(functorNext)
    {
      id := nextNode;
      OnListAdd(nodes, order, id, node);
      nodes := nodes[id := node];
      order := order + [id];
      nextNode := id + 1;
    }

    /** Design::del_node, with its interaction with a running scan. */
    method DelNode(id: NodeId) returns (j: nat)
      requires Tidy() && id in nodes
      modifies this
      ensures Tidy() && nodes == old(nodes) - {id}
      ensures j < |old(order)| && old(order)[j] == id && DelistedAt(old(order), old(functorNext), order, functorNext, j)
      ensures nexus == old(nexus) && nextNexus == old(nextNexus) && nextNode == old(nextNode)
    {
      j :| 0 <= j < |order| && order[j] == id;
      OnListRemove(nodes, order, j);
      nodes := nodes - {id};
      order := Without(order, j);
      if j < functorNext {
        functorNext := functorNext - 1;
      } else if j == functorNext && functorNext == |order| {
        functorNext := 0;
      }
    }

    /** make_const_z: a local wire driven by a high-impedance constant. */
    method MakeConstZ(wid: nat) returns (n: NexusId)
      requires Tidy()
      modifies this
      ensures Tidy() && n == old(nextNexus) && nextNexus == n + 1 && nextNode == old(nextNode) + 1
      ensures nodes == old(nodes)[old(nextNode) := Const(Fill(Vz, wid), n)]
      ensures nexus == old(nexus)[n := Nexus(wid, [PLAIN_WIRE])]
      ensures functorNext == old(functorNext)
    {
      n := nextNexus;
      nexus := nexus[n := Nexus(wid, [PLAIN_WIRE])];
      nextNexus := n + 1;
      var id := AddNode(Const(Fill(Vz, wid), n));
    }

    /** Ties the next unconnected input pin of a concatenation to a nexus. */
    method ConnectPart(c: NodeId, n: NexusId)
      requires Tidy() && c in nodes && nodes[c].Concat?
      modifies this`nodes
      ensures Tidy()
      ensures nodes == old(nodes)[c := old(nodes[c]).(parts := old(nodes[c].parts) + [n])]
    {
      nodes := nodes[c := nodes[c].(parts := nodes[c].parts + [n])];
    }
  }
}
