/** Running the functors over the whole design, and repeating until nothing changes. */
module CpropPass {
  import opened Logic4
  import opened Netlists
  import opened Rewrites
  import opened Constants
  import opened CpropRewrites
  import opened MergeRewrite
  import opened Designs
  import opened CpropSteps
  import opened DanglingConstants
  import opened CpropDuties
  import opened CpropFunctors

  /** What any number of rewrites keeps. */
  ghost predicate Run(a: Netlist, b: Netlist)
  {
    WellFormed(b) && (QuietPorts(a) && NoSelfFed(a) ==> Equivalent(a, b)) && Measure(b) <= Measure(a) && Kept(a, b)
  }

  lemma RunStart(a: Netlist)
    requires WellFormed(a)
    ensures Run(a, a)
  {
    hide Equivalent, WellFormed;
    EquivalentReflexive(a);
  }

  lemma RunThen(a: Netlist, b: Netlist, c: Netlist)
    requires Run(a, b) && Run(b, c)
    ensures Run(a, c)
  {
    hide Equivalent, WellFormed, SwitchesSeen, QuietPorts, NoSelfFed, Measure;
    if QuietPorts(a) && NoSelfFed(a) { EquivalentTransitive(a, b, c); }
  }

  lemma RunStep(a: Netlist, b: Netlist, c: Netlist)
    requires Run(a, b) && Step(b, c)
    ensures Run(a, c) && Measure(c) < Measure(b)
  {
    hide Equivalent, WellFormed, SwitchesSeen, QuietPorts, NoSelfFed, Measure;
    if QuietPorts(a) && NoSelfFed(a) { EquivalentTransitive(a, b, c); }
  }

  lemma RunDrop(a: Netlist, b: Netlist, id: NodeId)
    requires Run(a, b) && id in b.nodes && SelfFed(b.nodes[id])
    ensures Run(a, Drop(b, id)) && Measure(Drop(b, id)) == Measure(b) && !NoSelfFed(a)
  {
    hide Equivalent, WellFormed, SwitchesSeen, QuietPorts;
    DropWellFormed(b, id);
    KeptBySameDevices(b, Drop(b, id));
    assert RewritableNodes(Drop(b, id)) == RewritableNodes(b);
  }

  /** Only flip-flops that fed themselves are gone. */
  predicate FlopsGone(a: Netlist, b: Netlist)
  {
    && b.nexus == a.nexus
    && (forall id :: id in b.nodes ==> id in a.nodes && b.nodes[id] == a.nodes[id])
    && (forall id :: id in a.nodes && id !in b.nodes ==> SelfFed(a.nodes[id]))
  }

  lemma NoFlopsGone(a: Netlist, b: Netlist)
    requires FlopsGone(a, b) && NoSelfFed(a)
    ensures a == b
  {
  }

  /** functor_node: what goes with the kind of node. */
  method Visit(d: Design, fun: CpropFunctor, id: NodeId)
    requires d.Valid() && id in d.nodes
    modifies d, fun
    ensures d.Valid()
    ensures old(CanRewrite(d.Net(), d.order, id)) ==> fun.count == old(fun.count) + 1 && Step(old(d.Net()), d.Net())
    ensures old(SelfFed(d.nodes[id])) ==>
      && fun.count == old(fun.count) && d.Net() == old(Drop(d.Net(), id))
      && Delisted(old(d.order), old(d.functorNext), d.order, d.functorNext, id)
    ensures old(!CanRewrite(d.Net(), d.order, id) && !SelfFed(d.nodes[id])) ==>
      fun.count == old(fun.count) && unchanged(d)
  {
    hide WellFormed, OnList, Free, ConcatFolds, MuxFolds, PartsMerge, FoldedConcat, FoldedMux, Replaced;
    hide Measure, Equivalent, Kept, QuietPorts, Delisted;
    ghost var a, order, id' := d.Net(), d.order, d.nextNode;
    OnlyItsRewrite(a, order, id);
    assert Lists(a, order) && id' !in a.nodes by { ListsAndFree(d); }
    match d.nodes[id] {
      case Concat(_, _, _, _) =>
        fun.LpmConcat(d, id);
        if ConcatFolds(a, order, id) { ConcatStep(a, order, id, id'); }
      case Mux(_, _, _, _, _) =>
        fun.LpmMux(d, id);
        if MuxFolds(a, order, id) { MuxStep(a, order, id, id'); }
      case PartPV(_, _, _, _) =>
        fun.LpmPartSelect(d, id);
      case Device(kind, _, _, _) =>
        if kind.Flop? {
          fun.LpmFf(d, id);
          DropWellFormed(a, id);
        }
      case _ =>
    }
  }

  lemma OnlyItsRewrite(a: Netlist, order: seq<NodeId>, id: NodeId)
    requires id in a.nodes
    ensures ConcatFolds(a, order, id) ==> a.nodes[id].Concat?
    ensures MuxFolds(a, order, id) ==> a.nodes[id].Mux? && |a.nodes[id].data| == 2
    ensures PartsMerge(a, order, id) ==> a.nodes[id].PartPV?
  {
  }

  lemma ListsAndFree(d: Design)
    requires d.Tidy()
    ensures Lists(d.Net(), d.order) && d.nextNode !in d.nodes
  {
  }

  /** Looks at the node at position `cur`, which a scan has just moved past. */
  method VisitAt(d: Design, fun: CpropFunctor, cur: nat, ghost a: Netlist)
    requires d.Valid() && Run(a, d.Net()) && cur < |d.order| && d.order[cur] in d.nodes
    requires d.functorNext == cur + 1 || (d.functorNext == 0 && cur == |d.order| - 1)
    modifies d, fun
    ensures d.Valid() && Run(a, d.Net())
    ensures fun.count == old(fun.count) + if old(CanRewrite(d.Net(), d.order, d.order[cur])) then 1 else 0
    ensures fun.count > old(fun.count) ==> Measure(d.Net()) < old(Measure(d.Net()))
    ensures fun.count == old(fun.count) && old(SelfFed(d.nodes[d.order[cur]])) ==>
      && Measure(d.Net()) == old(Measure(d.Net())) && !NoSelfFed(a)
      && d.Net() == old(Drop(d.Net(), d.order[cur])) && d.order == Without(old(d.order), cur)
      && d.functorNext == if old(d.functorNext) == 0 then 0 else cur
    ensures fun.count == old(fun.count) && old(!SelfFed(d.nodes[d.order[cur]])) ==> unchanged(d)
  {
    hide WellFormed, OnList, Free, CanRewrite, Measure, Equivalent, Run, Step, Delisted, SelfFed;
    var id := d.order[cur];
    ghost var b, order, next := d.Net(), d.order, d.functorNext;
    ListIsDistinct(d.nodes, order);
    Visit(d, fun, id);
    if CanRewrite(b, order, id) {
      RunStep(a, b, d.Net());
    } else if SelfFed(b.nodes[id]) {
      RunDrop(a, b, id);
      DelistedHere(order, next, d.order, d.functorNext, cur);
    }
  }

  /** What a scan from position `next` on leaves behind if it has nothing to count. */
  function SweptFrom(a: Netlist, order: seq<NodeId>, next: nat): (Netlist, seq<NodeId>)
    decreases |order| - next
  {
    if next + 1 >= |order| || order[next] !in a.nodes then (a, order)
    else if SelfFed(a.nodes[order[next]]) then SweptFrom(Drop(a, order[next]), Without(order, next), next)
    else SweptFrom(a, order, next + 1)
  }

  /** It has nothing to count: no node can be rewritten at the moment the scan looks at it. */
  predicate IdleFrom(a: Netlist, order: seq<NodeId>, next: nat)
    decreases |order| - next
  {
    next + 1 < |order| && order[next] in a.nodes ==>
      && !CanRewrite(a, order, order[next])
      && if SelfFed(a.nodes[order[next]]) then IdleFrom(Drop(a, order[next]), Without(order, next), next)
         else IdleFrom(a, order, next + 1)
  }

  /** A whole scan: the last node of the list, then from the first one on. */
  function Swept(a: Netlist, order: seq<NodeId>): (Netlist, seq<NodeId>)
  {
    var last := |order| - 1;
    if last < 0 || order[last] !in a.nodes then (a, order)
    else if SelfFed(a.nodes[order[last]]) then SweptFrom(Drop(a, order[last]), Without(order, last), 0)
    else SweptFrom(a, order, 0)
  }

  predicate Idle(a: Netlist, order: seq<NodeId>)
  {
    var last := |order| - 1;
    last >= 0 && order[last] in a.nodes ==>
      && !CanRewrite(a, order, order[last])
      && if SelfFed(a.nodes[order[last]]) then IdleFrom(Drop(a, order[last]), Without(order, last), 0)
         else IdleFrom(a, order, 0)
  }

  lemma {:induction false} SweptLosesFlops(a: Netlist, order: seq<NodeId>, next: nat)
    ensures FlopsGone(a, SweptFrom(a, order, next).0)
    ensures NoSelfFed(a) ==> SweptFrom(a, order, next) == (a, order)
    decreases |order| - next
  {
    if next + 1 < |order| && order[next] in a.nodes {
      if SelfFed(a.nodes[order[next]]) { SweptLosesFlops(Drop(a, order[next]), Without(order, next), next); }
      else { SweptLosesFlops(a, order, next + 1); }
    }
  }

  lemma {:induction false} IdleEverywhere(a: Netlist, order: seq<NodeId>, next: nat)
    requires NoSelfFed(a) && forall j :: 0 <= j < |order| ==> order[j] in a.nodes
    ensures IdleFrom(a, order, next) <==> forall j :: next <= j < |order| - 1 ==> !CanRewrite(a, order, order[j])
    decreases |order| - next
  {
    hide CanRewrite;
    if next + 1 < |order| { IdleEverywhere(a, order, next + 1); }
  }

  lemma SweptIsGone(a: Netlist, order: seq<NodeId>)
    ensures FlopsGone(a, Swept(a, order).0) && (NoSelfFed(a) ==> Swept(a, order) == (a, order))
  {
    hide SweptFrom;
    var last := |order| - 1;
    if last >= 0 && order[last] in a.nodes {
      SweptLosesFlops(a, order, 0);
      SweptLosesFlops(Drop(a, order[last]), Without(order, last), 0);
    }
  }

  /** Without self-fed flip-flops, nothing to count means nothing to rewrite. */
  lemma IdleIsDone(d: Design)
    requires d.Tidy() && NoSelfFed(d.Net())
    ensures Idle(d.Net(), d.order) <==> NothingToRewrite(d.Net(), d.order)
    ensures NothingToRewrite(d.Net(), d.order) <==> forall id :: id in d.nodes ==> !CanRewrite(d.Net(), d.order, id)
  {
    hide CanRewrite, IdleFrom;
    var order := d.order;
    forall j | 0 <= j < |order| ensures order[j] in d.nodes { ListedNode(d, j); }
    IdleEverywhere(d.Net(), order, 0);
    if Idle(d.Net(), order) {
      forall id | id in order ensures !CanRewrite(d.Net(), order, id) {
        var j :| 0 <= j < |order| && order[j] == id;
      }
    }
  }

  /** Design::functor with the constant propagation functor. Main result: the scan counts nothing exactly when no
      node can be rewritten at the moment it is looked at, and what it then leaves behind. */
  method Scan(d: Design, fun: CpropFunctor)
    requires d.Valid()
    modifies d, fun
    ensures d.Valid() && Run(old(d.Net()), d.Net())
    ensures old(fun.count) <= fun.count && fun.count + Measure(d.Net()) <= old(fun.count) + old(Measure(d.Net()))
    ensures fun.count == old(fun.count) <==> old(Idle(d.Net(), d.order))
    ensures old(Idle(d.Net(), d.order)) ==> (d.Net(), d.order) == old(Swept(d.Net(), d.order))
  {
    hide WellFormed, OnList, Free, CanRewrite, Measure, Equivalent, Run, NoSelfFed, SelfFed, SweptFrom, IdleFrom;
    ghost var a, order0, count0 := d.Net(), d.order, fun.count;
    RunStart(a);
    if |d.order| == 0 { return; }
    var last := |d.order| - 1;
    d.functorNext := 0;
    ListedNode(d, last);
    VisitAt(d, fun, last, a);
    while d.functorNext < |d.order| - 1
      invariant d.Valid() && Run(a, d.Net())
      invariant count0 <= fun.count && fun.count + Measure(d.Net()) <= count0 + Measure(a)
      invariant fun.count > count0 ==> !Idle(a, order0)
      invariant fun.count == count0 ==> (Idle(a, order0) <==> IdleFrom(d.Net(), d.order, d.functorNext))
      invariant fun.count == count0 ==> Swept(a, order0) == SweptFrom(d.Net(), d.order, d.functorNext)
      decreases Measure(d.Net()), |d.order| - d.functorNext
    {
      var cur := d.functorNext;
      d.functorNext := cur + 1;
      ListedNode(d, cur);
      ScanUnfold(d.Net(), d.order, cur);
      VisitAt(d, fun, cur, a);
    }
    ScanStops(d.Net(), d.order, d.functorNext);
  }

  lemma ScanUnfold(a: Netlist, order: seq<NodeId>, next: nat)
    requires next + 1 < |order| && order[next] in a.nodes
    ensures SweptFrom(a, order, next) == if SelfFed(a.nodes[order[next]])
      then SweptFrom(Drop(a, order[next]), Without(order, next), next) else SweptFrom(a, order, next + 1)
    ensures IdleFrom(a, order, next) <==>
      && !CanRewrite(a, order, order[next])
      && if SelfFed(a.nodes[order[next]]) then IdleFrom(Drop(a, order[next]), Without(order, next), next)
         else IdleFrom(a, order, next + 1)
  {
    hide CanRewrite, SelfFed;
  }

  lemma ScanStops(a: Netlist, order: seq<NodeId>, next: nat)
    requires next + 1 >= |order|
    ensures SweptFrom(a, order, next) == (a, order) && IdleFrom(a, order, next)
  {
  }

  predicate NothingToRewrite(a: Netlist, order: seq<NodeId>) { forall id :: id in order ==> !CanRewrite(a, order, id) }

  lemma ListedNode(d: Design, j: nat)
    requires d.Tidy() && j < |d.order|
    ensures d.order[j] in d.nodes
  {
  }

  /** The do/while loop: scans until a scan counts nothing. */
  method Propagate(d: Design) returns (rounds: nat)
    requires d.Valid()
    modifies d
    ensures d.Valid() && Run(old(d.Net()), d.Net())
    ensures 1 <= rounds <= old(Measure(d.Net())) + 1
    ensures old(NoSelfFed(d.Net())) ==> forall id :: id in d.nodes ==> !CanRewrite(d.Net(), d.order, id)
    ensures old(Idle(d.Net(), d.order)) ==> rounds == 1 && (d.Net(), d.order) == old(Swept(d.Net(), d.order))
  {
    hide WellFormed, OnList, Free, CanRewrite, Measure, Equivalent, Run, NoSelfFed, NothingToRewrite, FlopsGone;
    hide Idle, Swept;
    ghost var a, order0 := d.Net(), d.order;
    RunStart(a);
    var prop := new CpropFunctor();
    rounds := 0;
    var more := true;
    while more
      invariant d.Valid() && Run(a, d.Net())
      invariant more ==> rounds + Measure(d.Net()) <= Measure(a)
      invariant !more ==> 1 <= rounds <= Measure(a) + 1
      invariant !more && NoSelfFed(a) ==> forall id :: id in d.nodes ==> !CanRewrite(d.Net(), d.order, id)
      invariant rounds == 0 ==> d.Net() == a && d.order == order0
      invariant rounds > 0 && Idle(a, order0) ==> !more && rounds == 1 && (d.Net(), d.order) == Swept(a, order0)
      decreases more, Measure(d.Net())
    {
      ghost var before := d.Net();
      RunKeeps(a, before);
      SweptIsGone(before, d.order);
      if NoSelfFed(before) { IdleIsDone(d); }
      prop.count := 0;
      Scan(d, prop);
      RunThen(a, before, d.Net());
      rounds := rounds + 1;
      more := prop.count > 0;
    }
  }

  lemma RunKeeps(a: Netlist, b: Netlist)
    requires Run(a, b)
    ensures NoSelfFed(a) ==> NoSelfFed(b)
  {
  }

  // ----- dangling constants -----

  predicate Removable(a: Netlist, id: NodeId)
  {
    id in a.nodes && a.nodes[id].Const? && (AllZ(a.nodes[id].value) || Dangling(a, id))
  }

  class CpropDcFunctor {
    constructor ()
    {
    }

    method CountZ(v: Vec) returns (tmp: nat)
      ensures tmp == |v| <==> AllZ(v)
    {
      tmp := 0;
      var idx := 0;
      while idx < |v|
        invariant 0 <= idx <= |v| && tmp <= idx
        invariant tmp == idx <==> forall j :: 0 <= j < idx ==> v[j] == Vz
      {
        if v[idx] == Vz { tmp := tmp + 1; }
        idx := idx + 1;
      }
    }

    /** The input links on a nexus. */
    method CountInputs(d: Design, q: NexusId) returns (inputs: nat)
      requires d.Tidy()
      ensures inputs > 0 <==> HasInput(d.Net(), q)
    {
      inputs := 0;
      var idx := 0;
      while idx < |d.order|
        invariant 0 <= idx <= |d.order|
        invariant inputs > 0 <==> exists j :: 0 <= j < idx && q in d.nodes[d.order[j]].Inputs()
      {
        inputs := inputs + multiset(d.nodes[d.order[idx]].Inputs())[q];
        idx := idx + 1;
      }
      if HasInput(d.Net(), q) {
        var id :| id in d.nodes && q in d.nodes[id].Inputs();
        assert id in d.order;
      }
    }

    /** No signal of the nexus keeps the constant. */
    method NobodyLooks(signals: seq<Signal>) returns (ok: bool)
      ensures ok <==> !exists s :: s in signals && s.IsSeen()
    {
      var idx := 0;
      while idx < |signals|
        invariant 0 <= idx <= |signals|
        invariant forall j :: 0 <= j < idx ==> !signals[j].IsSeen()
      {
        var tmp := signals[idx];
        assert tmp in signals;
        if !tmp.local { return false; }
        if tmp.eref > 0 { return false; }
        if tmp.port != NotAPort && tmp.inRoot { return false; }
        idx := idx + 1;
      }
      ok := true;
    }

    method LpmConst(d: Design, id: NodeId)
      requires d.Valid() && id in d.nodes && d.nodes[id].Const?
      modifies d
      ensures d.Tidy() && d.nexus == old(d.nexus)
      ensures id !in d.nodes <==>
        old(d.nodes[id].q in d.nexus && Useless(d.Net(), id))
      ensures old(!Removable(d.Net(), id)) ==> unchanged(d)
      ensures old(Removable(d.Net(), id)) ==>
        && d.Net() == old(Drop(d.Net(), id))
        && Delisted(old(d.order), old(d.functorNext), d.order, d.functorNext, id)
    {
      hide WellFormed, OnList, AllZ, HasInput;
      var obj := d.nodes[id];
      ConstTarget(d.Net(), id);
      DanglingIsUseless(d.Net(), id);
      hide Useless;
      var tmp := CountZ(obj.value);
      if tmp == |obj.value| {
        var j := d.DelNode(id);
        return;
      }
      var inputs := CountInputs(d, obj.q);
      if inputs > 0 { return; }
      var unseen := NobodyLooks(d.nexus[obj.q].signals);
      if !unseen { return; }
      var j := d.DelNode(id);
    }
  }

  lemma ConstTarget(a: Netlist, id: NodeId)
    requires WellFormed(a) && id in a.nodes && a.nodes[id].Const?
    ensures a.nodes[id].q in a.nexus
  {
    AllFit(a, id);
    assert a.nodes[id].q in a.nodes[id].Drives();
  }

  // ----- what reaping keeps -----

  /** Only removable constants are gone. */
  ghost predicate Reaped(a: Netlist, b: Netlist)
  {
    && WellFormed(b) && b.nexus == a.nexus
    && (forall id :: id in b.nodes ==> id in a.nodes && b.nodes[id] == a.nodes[id])
    && (forall id :: id in a.nodes && !Removable(a, id) ==> id in b.nodes)
    && (SwitchesSeen(a) ==> Equivalent(a, b) && SwitchesSeen(b))
  }

  lemma ReapedStart(a: Netlist)
    requires WellFormed(a)
    ensures Reaped(a, a)
  {
    hide Equivalent, WellFormed, SwitchesSeen;
    EquivalentReflexive(a);
  }

  /** Constants read nothing, so removing some makes no other one removable. */
  lemma RemovableFrame(a: Netlist, b: Netlist, id: NodeId)
    requires Reaped(a, b) && id in b.nodes
    ensures Removable(b, id) <==> Removable(a, id)
  {
    hide WellFormed, Equivalent, SwitchesSeen, AllZ;
    if b.nodes[id].Const? {
      var q := b.nodes[id].q;
      if HasInput(a, q) {
        var r :| r in a.nodes && q in a.nodes[r].Inputs();
        assert !Removable(a, r);
        assert r in b.nodes && q in b.nodes[r].Inputs();
      }
    }
  }

  lemma ReapOne(a: Netlist, b: Netlist, id: NodeId)
    requires Reaped(a, b) && Removable(b, id)
    ensures Reaped(a, Drop(b, id))
  {
    hide Equivalent, WellFormed, SwitchesSeen, Removable, AllZ;
    var c := Drop(b, id);
    RemovableInNodes(b, id);
    RemovableFrame(a, b, id);
    assert WellFormed(c) by { DropWellFormed(b, id); }
    if SwitchesSeen(a) {
      DropEquivalent(b, id);
      EquivalentTransitive(a, b, c);
    }
  }

  lemma RemovableInNodes(b: Netlist, id: NodeId)
    requires Removable(b, id)
    ensures id in b.nodes
  {
  }

  lemma DropWellFormed(b: Netlist, id: NodeId)
    requires WellFormed(b)
    ensures WellFormed(Drop(b, id))
  {
    hide NodeFits;
    forall x | x in Drop(b, id).nodes ensures NodeFits(Drop(b, id), b.nodes[x]) {
      StillFits(b, Drop(b, id), b.nodes[x]);
    }
  }

  lemma DropEquivalent(b: Netlist, id: NodeId)
    requires WellFormed(b) && Removable(b, id) && SwitchesSeen(b)
    ensures Equivalent(b, Drop(b, id)) && SwitchesSeen(Drop(b, id))
  {
    hide WellFormed, Preserves, AllZ;
    forall w: World ensures Preserves(w, b, Drop(b, id)) {
      if AllZ(b.nodes[id].value) { DropZPreserves(b, id, w); } else { DropDanglingPreserves(b, id, w); }
    }
    KeptBySameDevices(b, Drop(b, id));
  }

  /** Design::functor with the dangling-constant functor. Deleting the last node of the list ends the scan one
      node early, so that node is looked at only when it was last from the start. */
  method ScanDangling(d: Design, dc: CpropDcFunctor)
    requires d.Valid()
    modifies d
    ensures d.Valid() && Reaped(old(d.Net()), d.Net())
    ensures forall j :: 0 <= j < |d.order| - 1 ==> !Removable(d.Net(), d.order[j])
    ensures |old(d.order)| > 0 && old(!Removable(d.Net(), d.order[|d.order| - 1])) ==>
      forall id :: id in d.nodes <==> id in old(d.nodes) && old(!Removable(d.Net(), id))
  {
    hide WellFormed, OnList, Free, Reaped, Removable;
    ghost var a := d.Net();
    ReapedStart(a);
    if |d.order| == 0 { return; }
    var last := |d.order| - 1;
    ghost var keeper := d.order[last];
    d.functorNext := 0;
    VisitConst(d, dc, last, a);
    while d.functorNext < |d.order| - 1
      invariant d.Valid() && Reaped(a, d.Net())
      invariant forall j :: 0 <= j < d.functorNext && j < |d.order| ==> !Removable(a, d.order[j])
      invariant !Removable(a, keeper) ==> |d.order| > 0 && d.order[|d.order| - 1] == keeper
      decreases |d.order| - d.functorNext
    {
      var cur := d.functorNext;
      d.functorNext := cur + 1;
      VisitConst(d, dc, cur, a);
    }
    ScanEnd(d, a, keeper);
  }

  lemma ScanEnd(d: Design, a: Netlist, keeper: NodeId)
    requires d.Valid() && Reaped(a, d.Net()) && |d.order| - 1 <= d.functorNext
    requires forall j :: 0 <= j < d.functorNext && j < |d.order| ==> !Removable(a, d.order[j])
    requires !Removable(a, keeper) ==> |d.order| > 0 && d.order[|d.order| - 1] == keeper
    ensures forall j :: 0 <= j < |d.order| - 1 ==> !Removable(d.Net(), d.order[j])
    ensures !Removable(a, keeper) ==> forall id :: id in d.nodes <==> id in a.nodes && !Removable(a, id)
  {
    hide WellFormed, Removable, Equivalent, SwitchesSeen;
    forall j | 0 <= j < |d.order| - 1 ensures !Removable(d.Net(), d.order[j]) {
      RemovableFrame(a, d.Net(), d.order[j]);
    }
    if !Removable(a, keeper) {
      forall id | id in d.nodes ensures !Removable(a, id) {
        var j :| 0 <= j < |d.order| && d.order[j] == id;
      }
    }
  }

  /** Looks at the node at position `cur`, which a scan has just moved past. */
  method VisitConst(d: Design, dc: CpropDcFunctor, cur: nat, ghost a: Netlist)
    requires d.Valid() && Reaped(a, d.Net()) && cur < |d.order|
    requires d.functorNext == cur + 1 || (d.functorNext == 0 && cur == |d.order| - 1)
    modifies d
    ensures d.Valid() && Reaped(a, d.Net())
    ensures Removable(a, old(d.order)[cur]) ==>
      d.order == Without(old(d.order), cur) && d.functorNext == if old(d.functorNext) == 0 then 0 else cur
    ensures !Removable(a, old(d.order)[cur]) ==> unchanged(d)
  {
    hide WellFormed, Reaped, Removable, Free, Delisted;
    var id := d.order[cur];
    ghost var b, order, next := d.Net(), d.order, d.functorNext;
    RemovableFrame(a, b, id);
    if d.nodes[id].Const? {
      dc.LpmConst(d, id);
      if Removable(b, id) {
        ReapOne(a, b, id);
        ReapedWellFormed(a, d.Net());
        DelistedHere(order, next, d.order, d.functorNext, cur);
      }
    } else {
      OnlyConstants(b, id);
    }
  }

  lemma ReapedWellFormed(a: Netlist, b: Netlist)
    requires Reaped(a, b)
    ensures WellFormed(b)
  {
  }

  lemma OnlyConstants(b: Netlist, id: NodeId)
    requires id in b.nodes && !b.nodes[id].Const?
    ensures !Removable(b, id)
  {
  }

  // ----- the pass -----

  /** Main result: the pass ends, within one round more than there are rewritable nodes, and keeps every
      observable valuation of any netlist, cyclic or not, in which no root port is tri0 or tri1, no flip-flop
      feeds itself, and switches sit on nets that can be seen. */
  method Cprop(d: Design) returns (rounds: nat)
    requires d.Valid()
    modifies d
    ensures d.Valid() && 1 <= rounds <= old(Measure(d.Net())) + 1
    ensures old(QuietPorts(d.Net()) && NoSelfFed(d.Net()) && SwitchesSeen(d.Net())) ==>
      Equivalent(old(d.Net()), d.Net())
    ensures old(NoSelfFed(d.Net()) && NothingToRewrite(d.Net(), d.order)) ==>
      && Reaped(old(d.Net()), d.Net())
      && (|old(d.order)| > 0 && old(!Removable(d.Net(), d.order[|d.order| - 1])) ==>
            forall id :: id in d.nodes <==> id in old(d.nodes) && old(!Removable(d.Net(), id)))
  {
    hide WellFormed, OnList, Free, CanRewrite, Measure, Equivalent, SwitchesSeen, QuietPorts, NoSelfFed, Removable;
    hide NothingToRewrite, Idle, Swept;
    ghost var a := d.Net();
    if NoSelfFed(a) {
      IdleIsDone(d);
      SweptIsGone(a, d.order);
    }
    rounds := Propagate(d);
    ghost var b := d.Net();
    var dc := new CpropDcFunctor();
    ScanDangling(d, dc);
    if QuietPorts(a) && NoSelfFed(a) && SwitchesSeen(a) { EquivalentTransitive(a, b, d.Net()); }
  }
}
