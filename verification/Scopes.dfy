/** Elaborating the scope tree: module instances, generate schemes, and the work list that delays some of them. */
module Scopes {
  import opened ScopePaths
  import opened ScopeTrees
  import opened Verinums

  class NetScope {
    const parent: NetScope?
    const frame: Frame
    const path: Path

    constructor (parent: NetScope?, frame: Frame)
      requires parent == null || parent.Linked()
      ensures this.parent == parent && this.frame == frame && Linked()
      ensures path == [frame] + if parent == null then [] else parent.path
    {
      this.parent := parent;
      this.frame := frame;
      this.path := [frame] + if parent == null then [] else parent.path;
    }

    /** The parent pointers lead up the path. */
    ghost predicate Linked()
      decreases |path|
    {
      && path == [frame] + (if parent == null then [] else parent.path)
      && (parent != null ==> parent.Linked())
    }
  }

  datatype WorkItem =
    | RootScope(scope: NetScope, moduleName: string)
    | Schemes(scope: NetScope, moduleName: string)
    | Instances(scope: NetScope, gate: Gate)
    | Defparams
  {
    function ToPending(): Pending
      requires !Defparams?
    {
      match this
      case RootScope(sc, _) => PRoot(sc.path)
      case Schemes(sc, _) => PGens(sc.path)
      case Instances(sc, gate) => PGate(sc.path, gate)
    }
  }

  ghost function Paths(scopes: seq<NetScope>): set<Path> { set s | s in scopes :: s.path }

  ghost function Pend(work: seq<WorkItem>): set<Pending> { set it | it in work && !it.Defparams? :: it.ToPending() }

  lemma PathsGrow(a: seq<NetScope>, b: seq<NetScope>)
    requires a <= b
    ensures Paths(a) <= Paths(b)
  {
  }

  lemma PendGrow(a: seq<WorkItem>, b: seq<WorkItem>)
    requires a <= b
    ensures Pend(a) <= Pend(b)
  {
  }

  lemma PathsSnoc(a: seq<NetScope>, s: NetScope)
    ensures Paths(a + [s]) == Paths(a) + {s.path} && Paths(a) <= Paths(a + [s])
  {
    assert forall x :: x in a + [s] <==> x in a || x == s;
  }

  lemma PendSnoc(a: seq<WorkItem>, it: WorkItem)
    ensures Pend(a + [it]) == if it.Defparams? then Pend(a) else Pend(a) + {it.ToPending()}
    ensures Pend(a) <= Pend(a + [it])
  {
    assert forall x :: x in a + [it] <==> x in a || x == it;
    if it.Defparams? { assert Pend(a + [it]) == Pend(a); }
  }

  // ----- the recursion check -----

  /** What the walk up the parents has established on the way: instances seen so far are few and behind a block. */
  ghost predicate Passed(done: Path, m: string, rlCount: nat, inGenblk: bool, limit: nat)
  {
    && rlCount == Count(done, m) <= limit
    && (inGenblk <==> BlockBefore(done, |done|))
    && forall i :: 0 <= i < |done| && done[i].InstanceOf(m) ==> BlockBefore(done, i)
  }

  /** The recursion check of elaborate_scope_mod_, walking up the parents. */
  method MayInstantiate(sc: NetScope, moduleName: string, limit: nat) returns (ok: bool)
    requires sc.Linked()
    ensures ok <==> Allowed(sc.path, moduleName, limit)
  {
    hide Allowed, Count, BlockBefore, Passed;
    var rlCount := 0;
    var inGenblk := false;
    var scn: NetScope? := sc;
    ghost var done: Path := [];
    NothingPassed(moduleName, limit);
    while scn != null
      invariant scn != null ==> scn.Linked()
      invariant sc.path == done + (if scn == null then [] else scn.path)
      invariant Passed(done, moduleName, rlCount, inGenblk, limit)
      decreases if scn == null then 0 else 1 + |scn.path|
    {
      ghost var rest := if scn.parent == null then [] else scn.parent.path;
      assert sc.path == done + [scn.frame] + rest;
      Climb(done, scn.frame, rest, moduleName, rlCount, inGenblk, limit);
      if scn.frame.kind.GenBlock? {
        inGenblk := true;
      } else if scn.frame.moduleName == moduleName {
        if !inGenblk { return false; }
        rlCount := rlCount + 1;
        if rlCount > limit { return false; }
      }
      done := done + [scn.frame];
      scn := scn.parent;
    }
    assert sc.path == done;
    AtTheTop(done, moduleName, rlCount, inGenblk, limit);
    ok := true;
  }

  lemma NothingPassed(m: string, limit: nat)
    ensures Passed([], m, 0, false, limit)
  {
  }

  lemma AtTheTop(path: Path, m: string, rlCount: nat, inGenblk: bool, limit: nat)
    requires Passed(path, m, rlCount, inGenblk, limit)
    ensures Allowed(path, m, limit)
  {
  }

  lemma Climb(done: Path, f: Frame, rest: Path, m: string, rlCount: nat, inGenblk: bool, limit: nat)
    requires Passed(done, m, rlCount, inGenblk, limit)
    ensures f.InstanceOf(m) && (!inGenblk || rlCount + 1 > limit) ==> !Allowed(done + [f] + rest, m, limit)
    ensures !(f.InstanceOf(m) && (!inGenblk || rlCount + 1 > limit)) ==>
      Passed(done + [f], m, if f.InstanceOf(m) then rlCount + 1 else rlCount, inGenblk || f.kind.GenBlock?, limit)
  {
    hide Count, BlockBefore;
    StepUp(done, f, rest, m);
    var p := done + [f];
    assert forall i :: 0 <= i < |done| ==> p[i] == done[i];
    assert p[|done|] == f;
  }

  lemma {:induction false} CountAppend(x: Path, y: Path, m: string)
    ensures Count(x + y, m) == Count(x, m) + Count(y, m)
  {
    if |x| == 0 { assert x + y == y; } else {
      assert (x + y)[1..] == x[1..] + y;
      CountAppend(x[1..], y, m);
    }
  }

  lemma StepUp(done: Path, f: Frame, rest: Path, m: string)
    ensures Count(done + [f], m) == Count(done, m) + if f.InstanceOf(m) then 1 else 0
    ensures Count(done + [f] + rest, m) >= Count(done + [f], m)
    ensures forall i :: 0 <= i <= |done| ==>
      && (BlockBefore(done + [f], i) <==> BlockBefore(done, i))
      && (BlockBefore(done + [f] + rest, i) <==> BlockBefore(done, i))
    ensures BlockBefore(done + [f], |done| + 1) <==> BlockBefore(done, |done|) || f.kind.GenBlock?
    ensures (done + [f] + rest)[|done|] == f
  {
    CountAppend(done, [f], m);
    CountAppend(done + [f], rest, m);
    var p, q := done + [f], done + [f] + rest;
    forall i | 0 <= i <= |done|
      ensures (BlockBefore(p, i) <==> BlockBefore(done, i)) && (BlockBefore(q, i) <==> BlockBefore(done, i))
    {
      assert forall j :: 0 <= j < i ==> p[j] == done[j] == q[j];
    }
    assert p[|done|] == f;
    assert forall j :: 0 <= j < |done| ==> p[j] == done[j];
  }

  // ----- elaboration -----

  /** The scopes from position `n` on have what they call for, or the work list will see to it, and each is
      called for by its parent. */
  ghost predicate Tracked(lib: Library, scopes: seq<NetScope>, work: seq<WorkItem>, n: nat)
  {
    forall i :: n <= i < |scopes| ==>
      && Settled(lib, Paths(scopes), Pend(work), scopes[i].path)
      && ChildOf(lib, Paths(scopes), scopes[i].path)
  }

  ghost predicate ChildOf(lib: Library, paths: set<Path>, p: Path)
  {
    |p| > 1 && p[1..] in paths && Required(lib, p[1..], p[0])
  }

  lemma NothingTracked(lib: Library, scopes: seq<NetScope>, work: seq<WorkItem>)
    ensures Tracked(lib, scopes, work, |scopes|)
  {
  }

  lemma TrackedThen(lib: Library, s1: seq<NetScope>, w1: seq<WorkItem>, s2: seq<NetScope>, w2: seq<WorkItem>, n: nat)
    requires s1 <= s2 && w1 <= w2 && Tracked(lib, s1, w1, n) && Tracked(lib, s2, w2, |s1|)
    ensures Tracked(lib, s2, w2, n)
  {
    hide Settled, Required;
    PathsGrow(s1, s2);
    PendGrow(w1, w2);
    forall i | n <= i < |s2|
      ensures Settled(lib, Paths(s2), Pend(w2), s2[i].path) && ChildOf(lib, Paths(s2), s2[i].path)
    {
      if i < |s1| {
        assert s2[i] == s1[i];
        SettledGrows(lib, Paths(s1), Pend(w1), Paths(s2), Pend(w2), s1[i].path);
      }
    }
  }

  lemma PendFirst(q: seq<WorkItem>, k: nat)
    requires k < |q|
    ensures Pend(q[k..]) == Pend(q[k + 1..]) + if q[k].Defparams? then {} else {q[k].ToPending()}
  {
    assert forall x :: x in q[k..] <==> x == q[k] || x in q[k + 1..];
  }

  /** What holds of a design under elaboration from these roots, given what is still to be done. */
  ghost predicate Growing(lib: Library, scopes: seq<NetScope>, pend: set<Pending>, roots: seq<string>)
  {
    forall i :: 0 <= i < |scopes| ==>
      && Settled(lib, Paths(scopes), pend, scopes[i].path)
      && Justified(lib, Paths(scopes), roots, scopes[i].path)
  }

  /** Doing an item that was pending keeps that. */
  lemma StepGrows(lib: Library, s0: seq<NetScope>, w0: seq<WorkItem>, s1: seq<NetScope>, w1: seq<WorkItem>,
                  rest: set<Pending>, it: WorkItem, roots: seq<string>)
    requires s0 <= s1 && w0 <= w1 && Tracked(lib, s1, w1, |s0|)
    requires Growing(lib, s0, rest + (if it.Defparams? then {} else {it.ToPending()}) + Pend(w0), roots)
    requires !it.Defparams? ==> Discharged(lib, Paths(s1), Pend(w1), it.ToPending())
    ensures Growing(lib, s1, rest + Pend(w1), roots)
  {
    hide Settled, Justified, Required, Discharged;
    PathsGrow(s0, s1);
    PendGrow(w0, w1);
    var own: set<Pending> := if it.Defparams? then {} else {it.ToPending()};
    var all := rest + Pend(w1);
    if !it.Defparams? { DischargedGrows(lib, Paths(s1), Pend(w1), all, it.ToPending()); }
    forall i | 0 <= i < |s1|
      ensures Settled(lib, Paths(s1), all, s1[i].path) && Justified(lib, Paths(s1), roots, s1[i].path)
    {
      var p := s1[i].path;
      if i < |s0| {
        assert s1[i] == s0[i];
        SettledGrows(lib, Paths(s0), rest + own + Pend(w0), Paths(s1), all + own, p);
        JustifiedGrows(lib, Paths(s0), Paths(s1), roots, p);
        if it.Defparams? {
          assert all + own == all;
        } else {
          DischargedSettles(lib, Paths(s1), all, it.ToPending(), p);
        }
      } else {
        SettledGrows(lib, Paths(s1), Pend(w1), Paths(s1), all, p);
        ChildIsJustified(lib, Paths(s1), roots, p);
      }
    }
  }

  lemma ChildIsJustified(lib: Library, paths: set<Path>, roots: seq<string>, p: Path)
    requires ChildOf(lib, paths, p)
    ensures Justified(lib, paths, roots, p)
  {
    hide Required;
  }

  class Design {
    const lib: Library
    var scopes: seq<NetScope>
    var workList: seq<WorkItem>
    var errors: nat

    constructor (lib: Library)
      ensures this.lib == lib && scopes == [] && workList == [] && errors == 0
    {
      this.lib := lib;
      scopes, workList, errors := [], [], 0;
    }

    ghost predicate Good(s: NetScope)
    {
      s.Linked() && Bounded(s.path, lib.modules.Keys, lib.limit) && Called(lib, s.path)
    }

    ghost predicate GoodItem(it: WorkItem)
    {
      match it
      case RootScope(sc, m) => Good(sc) && sc.frame.InstanceOf(m) && m in lib.modules
      case Schemes(sc, m) => Good(sc) && sc.frame.InstanceOf(m) && m in lib.modules
      case Instances(sc, gate) =>
        Good(sc) && gate.isArray && gate in GatesOf(lib, sc.path) && GateOk(lib, sc.path, gate)
      case Defparams => true
    }

    /** The item is about a scope of the design. */
    ghost predicate Local(it: WorkItem)
      reads this`scopes
    { it.Defparams? || it.scope in scopes }

    ghost predicate Valid()
      reads this`scopes, this`workList
    {
      && LoopsEnd(lib)
      && (forall s :: s in scopes ==> Good(s))
      && (forall it :: it in workList ==> GoodItem(it) && Local(it))
    }

    ghost function Left(sc: NetScope): nat
    {
      if Bounded(sc.path, lib.modules.Keys, lib.limit) then Remaining(sc.path, lib.modules.Keys, lib.limit) else 0
    }

    /** How much an item can still lead to: everything it puts on the list has a lower level. */
    ghost function Level(it: WorkItem): nat
    {
      match it
      case RootScope(sc, _) => 2 * Left(sc) + 2
      case Schemes(sc, _) => 2 * Left(sc) + 1
      case Instances(sc, _) => 2 * Left(sc)
      case Defparams => 0
    }

    /** Scopes and items were only added, the items with at most this level, the scopes with their children. */
    ghost predicate GrownTo(scopes0: seq<NetScope>, work0: seq<WorkItem>, scopes1: seq<NetScope>,
                            work1: seq<WorkItem>, level: int)
    {
      && scopes0 <= scopes1 && work0 <= work1
      && (forall i :: |work0| <= i < |work1| ==> Level(work1[i]) <= level)
      && Tracked(lib, scopes1, work1, |scopes0|)
    }

    ghost predicate Grown(scopes0: seq<NetScope>, work0: seq<WorkItem>, level: int)
      reads this`scopes, this`workList
    { GrownTo(scopes0, work0, scopes, workList, level) }

    lemma GrownRefl(level: int)
      ensures Grown(scopes, workList, level)
    {
      NothingTracked(lib, scopes, workList);
    }

    /** Growth in two stages is growth. */
    lemma GrownThen(scopes0: seq<NetScope>, work0: seq<WorkItem>, scopes1: seq<NetScope>, work1: seq<WorkItem>,
                    level: int, level': int)
      requires GrownTo(scopes0, work0, scopes1, work1, level) && Grown(scopes1, work1, level') && level' <= level
      ensures Grown(scopes0, work0, level)
      ensures Paths(scopes1) <= Paths(scopes) && Pend(work1) <= Pend(workList)
    {
      hide Tracked, Level;
      TrackedThen(lib, scopes1, work1, scopes, workList, |scopes0|);
      PathsGrow(scopes1, scopes);
      PendGrow(work1, workList);
    }

    method AddScope(parent: NetScope?, frame: Frame) returns (s: NetScope)
      requires Valid() && (parent == null || Good(parent))
      requires Bounded([frame] + if parent == null then [] else parent.path, lib.modules.Keys, lib.limit)
      requires Called(lib, [frame] + if parent == null then [] else parent.path)
      modifies this`scopes
      ensures Valid() && Good(s) && scopes == old(scopes) + [s] && s.frame == frame
      ensures s.path == [frame] + if parent == null then [] else parent.path
    {
      s := new NetScope(parent, frame);
      scopes := scopes + [s];
    }

    method Push(it: WorkItem)
      requires Valid() && GoodItem(it) && Local(it)
      modifies this`workList
      ensures Valid() && workList == old(workList) + [it]
      ensures !it.Defparams? ==> it.ToPending() in Pend(workList)
      ensures Pend(old(workList)) <= Pend(workList)
    {
      PendSnoc(workList, it);
      workList := workList + [it];
    }

    lemma PushGrows(scopes0: seq<NetScope>, work0: seq<WorkItem>, it: WorkItem, level: int)
      requires scopes == scopes0 && workList == work0 + [it] && Level(it) <= level
      ensures Grown(scopes0, work0, level)
    {
      NothingTracked(lib, scopes, workList);
    }

    /** Module::elaborate_scope */
    method ElaborateModule(sc: NetScope, moduleName: string)
      requires Valid() && Good(sc) && sc in scopes && sc.frame.InstanceOf(moduleName) && moduleName in lib.modules
      modifies this
      ensures Valid() && Grown(old(scopes), old(workList), 2 * Left(sc) + 1)
      ensures Elaborated(lib, Paths(scopes), Pend(workList), sc.path)
      decreases Left(sc), 3, 0
    {
      hide Bounded, Called, GrownTo, GateSettled, GenDone;
      ghost var level := 2 * Left(sc) + 1;
      ModuleParts(sc, moduleName);
      PushSchemes(sc, moduleName);
      ghost var pushedS, pushedW := scopes, workList;
      ElaborateGates(sc, lib.modules[moduleName].gates, level);
      GrownThen(old(scopes), old(workList), pushedS, pushedW, level, level);
    }

    method PushSchemes(sc: NetScope, moduleName: string)
      requires Valid() && GoodItem(Schemes(sc, moduleName)) && sc in scopes
      modifies this`workList
      ensures Valid() && Grown(old(scopes), old(workList), 2 * Left(sc) + 1) && PGens(sc.path) in Pend(workList)
    {
      hide Bounded, Called, Tracked;
      Push(Schemes(sc, moduleName));
      PushGrows(old(scopes), old(workList), Schemes(sc, moduleName), 2 * Left(sc) + 1);
    }

    lemma ModuleParts(sc: NetScope, moduleName: string)
      requires sc.Linked() && sc.frame.InstanceOf(moduleName) && moduleName in lib.modules
      ensures GatesOf(lib, sc.path) == lib.modules[moduleName].gates
      ensures GensOf(lib, sc.path) == lib.modules[moduleName].generates
    {
    }

    /** The first `k` gates are settled. */
    ghost predicate GatesDone(paths: set<Path>, pend: set<Pending>, p: Path, gates: seq<Gate>, k: nat)
      requires k <= |gates|
    {
      forall j :: 0 <= j < k ==> GateSettled(lib, paths, pend, p, gates[j])
    }

    lemma GatesStayDone(paths: set<Path>, pend: set<Pending>, paths': set<Path>, pend': set<Pending>,
                        p: Path, gates: seq<Gate>, k: nat)
      requires k <= |gates| && GatesDone(paths, pend, p, gates, k) && paths <= paths' && pend <= pend'
      ensures GatesDone(paths', pend', p, gates, k)
    {
      hide InstanceCount;
    }

    method ElaborateGates(sc: NetScope, gates: seq<Gate>, ghost level: nat)
      requires Valid() && Good(sc) && sc in scopes && level >= 2 * Left(sc) && gates == GatesOf(lib, sc.path)
      modifies this
      ensures Valid() && Grown(old(scopes), old(workList), level)
      ensures forall gate :: gate in gates ==> GateSettled(lib, Paths(scopes), Pend(workList), sc.path, gate)
      decreases Left(sc), 2, 1
    {
      hide Bounded, Called, Tracked, GateSettled, GatesOf;
      GrownRefl(level);
      for k := 0 to |gates|
        invariant Valid() && Grown(old(scopes), old(workList), level)
          && GatesDone(Paths(scopes), Pend(workList), sc.path, gates, k)
      {
        ghost var beforeS, beforeW := scopes, workList;
        ElaborateGate(sc, gates[k]);
        GrownThen(old(scopes), old(workList), beforeS, beforeW, level, 2 * Left(sc));
        GatesStayDone(Paths(beforeS), Pend(beforeW), Paths(scopes), Pend(workList), sc.path, gates, k);
      }
    }

    /** PGModule::elaborate_scope_mod_ */
    method ElaborateGate(sc: NetScope, gate: Gate)
      requires Valid() && Good(sc) && sc in scopes && gate in GatesOf(lib, sc.path)
      modifies this
      ensures Valid() && Grown(old(scopes), old(workList), 2 * Left(sc))
      ensures GateSettled(lib, Paths(scopes), Pend(workList), sc.path, gate)
      ensures !GateOk(lib, sc.path, gate) ==> errors == old(errors) + 1
      ensures GateOk(lib, sc.path, gate) && gate.isArray ==> errors == old(errors)
      decreases Left(sc), 2, 0
    {
      hide Bounded, Called, Allowed, Tracked, GatesOf;
      GrownRefl(2 * Left(sc));
      if gate.moduleName !in lib.modules || gate.name == "" {
        errors := errors + 1;
        return;
      }
      var ok := MayInstantiate(sc, gate.moduleName, lib.limit);
      if !ok {
        errors := errors + 1;
        return;
      }
      if gate.isArray {
        Push(Instances(sc, gate));
        PushGrows(old(scopes), old(workList), Instances(sc, gate), 2 * Left(sc));
      } else {
        ElaborateInstances(sc, gate);
        LowerLevel(old(scopes), old(workList), 2 * Left(sc) - 1, 2 * Left(sc));
      }
    }

    lemma LowerLevel(scopes0: seq<NetScope>, work0: seq<WorkItem>, level: int, level': int)
      requires Grown(scopes0, work0, level) && level <= level'
      ensures Grown(scopes0, work0, level')
    {
    }

    /** PGModule::elaborate_scope_mod_instances_ */
    method ElaborateInstances(sc: NetScope, gate: Gate)
      requires Valid() && Good(sc) && sc in scopes && gate in GatesOf(lib, sc.path) && GateOk(lib, sc.path, gate)
      modifies this
      ensures Valid() && Left(sc) > 0 && Grown(old(scopes), old(workList), 2 * Left(sc) - 1)
      ensures GateDone(lib, Paths(scopes), sc.path, gate)
      decreases Left(sc), 1, 0
    {
      hide Bounded, Called, Allowed, Tracked, GatesOf, InstanceCount, InstanceIndex, GateOk;
      InstanceFits(sc, gate, 0);
      ghost var level := 2 * Left(sc) - 1;
      GrownRefl(level);
      var low, high, count, isArray := 0, 0, 1, false;
      var bounds := if gate.isArray then lib.eval.bounds(sc.path, gate) else None;
      if bounds.Some? {
        isArray, high, low := true, bounds.value.msb, bounds.value.lsb;
        count := if high > low then high - low + 1 else low - high + 1;
      }
      CountedAndNamed(lib, sc.path, gate);
      for idx := 0 to count
        invariant Valid() && Grown(old(scopes), old(workList), level)
        invariant forall i :: 0 <= i < idx ==> [InstanceAt(lib, sc.path, gate, i)] + sc.path in Paths(scopes)
      {
        ghost var beforeS, beforeW := scopes, workList;
        var index := 0;
        if isArray { index := if low < high then AsInt32(low + idx) else AsInt32(low - idx); }
        AddInstance(sc, gate, idx, index);
        GrownThen(old(scopes), old(workList), beforeS, beforeW, level, level);
      }
    }

    method AddInstance(sc: NetScope, gate: Gate, ghost idx: nat, index: int)
      requires Valid() && Good(sc) && sc in scopes && gate in GatesOf(lib, sc.path) && GateOk(lib, sc.path, gate)
      requires idx < InstanceCount(lib, sc.path, gate) && index == InstanceIndex(lib, sc.path, gate, idx)
      modifies this
      ensures Valid() && Grown(old(scopes), old(workList), 2 * Left(sc) - 1)
      ensures [InstanceAt(lib, sc.path, gate, idx)] + sc.path in Paths(scopes)
      decreases Left(sc), 0, 0
    {
      hide Bounded, Called, Allowed, Tracked, GatesOf, InstanceCount, InstanceIndex, GateOk, Elaborated;
      InstanceFits(sc, gate, index);
      assert Required(lib, sc.path, InstanceAt(lib, sc.path, gate, idx));
      ChildCalled(lib, sc.path, InstanceFrame(gate, index));
      var my := AddScope(sc, InstanceFrame(gate, index));
      ghost var addedS, addedW := scopes, workList;
      ElaborateModule(my, gate.moduleName);
      ScopeAdded(old(scopes), old(workList), my, sc, 2 * Left(sc) - 1);
    }

    /** A scope that was added, with its children seen to, counts as growth. */
    lemma ScopeAdded(scopes0: seq<NetScope>, work0: seq<WorkItem>, my: NetScope, sc: NetScope, level: int)
      requires Grown(scopes0 + [my], work0, level) && Elaborated(lib, Paths(scopes), Pend(workList), my.path)
      requires sc in scopes0 && sc.Linked() && my.path == [my.frame] + sc.path && Required(lib, sc.path, my.frame)
      ensures Grown(scopes0, work0, level) && my.path in Paths(scopes)
    {
      hide Elaborated, Required;
      var mid := scopes0 + [my];
      assert mid[|scopes0|] == my && scopes[|scopes0|] == mid[|scopes0|];
      PathsGrow(mid, scopes);
      PathsSnoc(scopes0, my);
      assert sc.path in Paths(scopes0);
      assert my.path[1..] == sc.path;
      assert scopes0 <= scopes;
      forall i | |scopes0| <= i < |scopes|
        ensures Settled(lib, Paths(scopes), Pend(workList), scopes[i].path)
          && ChildOf(lib, Paths(scopes), scopes[i].path)
      {
        if i == |scopes0| { assert scopes[i] == my; }
      }
    }

    lemma InstanceFits(sc: NetScope, gate: Gate, idx: int)
      requires Good(sc) && GateOk(lib, sc.path, gate)
      ensures Bounded([InstanceFrame(gate, idx)] + sc.path, lib.modules.Keys, lib.limit)
      ensures Left(sc) > 0 && Remaining([InstanceFrame(gate, idx)] + sc.path, lib.modules.Keys, lib.limit)
        == Left(sc) - 1
    {
      var frame := InstanceFrame(gate, idx);
      AllowedKeepsBounds(frame, sc.path, lib.modules.Keys, lib.limit);
      RemainingDrops(frame, sc.path, lib.modules.Keys, lib.limit);
    }

    lemma BlockFits(sc: NetScope, frame: Frame)
      requires Good(sc) && frame.kind.GenBlock?
      ensures Bounded([frame] + sc.path, lib.modules.Keys, lib.limit)
      ensures Remaining([frame] + sc.path, lib.modules.Keys, lib.limit) == Left(sc)
    {
      BlockKeepsBounds(frame, sc.path, lib.modules.Keys, lib.limit);
      RemainingDrops(frame, sc.path, lib.modules.Keys, lib.limit);
    }

    /** PGenerate::generate_scope */
    method Generate(sc: NetScope, gen: Gen)
      requires Valid() && Good(sc) && sc in scopes && Under(lib, sc.path, gen)
      modifies this
      ensures Valid() && Grown(old(scopes), old(workList), 2 * Left(sc))
      ensures GenDone(lib, Paths(scopes), sc.path, gen)
      decreases Left(sc), 4, gen, 3
    {
      hide Bounded, Called, Tracked, Required, LoopsEnd;
      GrownRefl(2 * Left(sc));
      match gen
      case Case(_) => GenerateCase(sc, gen);
      case Block(kind, _, _, _, _) =>
        match kind
        case Loop => GenerateLoop(sc, gen);
        case NamedBlock => GenerateBlock(sc, gen, 0);
        case CaseItem(_) =>
        case _ => GenerateCondit(sc, gen);
    }

    /** PGenerate::generate_scope_condit_ */
    method GenerateCondit(sc: NetScope, gen: Gen)
      requires Valid() && Good(sc) && sc in scopes && Under(lib, sc.path, gen)
      requires gen.Block? && (gen.kind.Condit? || gen.kind.Else?)
      modifies this
      ensures Valid() && Grown(old(scopes), old(workList), 2 * Left(sc))
      ensures GenDone(lib, Paths(scopes), sc.path, gen)
      decreases Left(sc), 4, gen, 2
    {
      hide Bounded, Called, Tracked, Required, LoopsEnd;
      GrownRefl(2 * Left(sc));
      var test := lib.eval.test(sc.path, gen);
      if test.None? {
        errors := errors + 1;
        return;
      }
      if (test.value == 0 && gen.kind.Condit?) || (test.value != 0 && gen.kind.Else?) { return; }
      if gen.direct { GenerateAll(sc, gen.nested, gen); } else { GenerateBlock(sc, gen, 0); }
    }

    /** All expressions of the items are constants. */
    ghost predicate AllConstant(p: Path, items: seq<Gen>)
    {
      forall j, i: nat :: 0 <= j < |items| && items[j].Block? && items[j].kind.CaseItem? && i < items[j].kind.tests ==>
        lib.eval.itemValue(p, items[j], i).Some?
    }

    /** Some expression of the item has the value. */
    ghost predicate HasValue(p: Path, item: Gen, value: Verinum)
    {
      && item.Block? && item.kind.CaseItem?
      && exists i: nat :: i < item.kind.tests && lib.eval.itemValue(p, item, i).Some?
                          && Equal(value, lib.eval.itemValue(p, item, i).value)
    }

    /** The loops over the case items and their expressions. Main result: the item to generate is the first one
        with the value, and else the last default, if there is one. */
    method ChooseItem(sc: NetScope, gen: Gen) returns (chosen: Option<nat>)
      requires gen.Case?
      modifies this`errors
      ensures chosen.Some? ==> Takes(lib.eval, sc.path, gen, chosen.value)
      ensures chosen.None? ==> forall k: nat :: !Takes(lib.eval, sc.path, gen, k)
      ensures lib.eval.switch(sc.path, gen).Some? && AllConstant(sc.path, gen.items) ==>
        var value := lib.eval.switch(sc.path, gen).value;
        if chosen.Some? && HasValue(sc.path, gen.items[chosen.value], value) then
          forall j :: 0 <= j < chosen.value ==> !HasValue(sc.path, gen.items[j], value)
        else
          && (forall j :: 0 <= j < |gen.items| ==> !HasValue(sc.path, gen.items[j], value))
          && (chosen.Some? ==> gen.items[chosen.value].Block? && gen.items[chosen.value].kind == CaseItem(0))
          && forall j :: (if chosen.Some? then chosen.value + 1 else 0) <= j < |gen.items| && gen.items[j].Block? ==>
               gen.items[j].kind != CaseItem(0)
    {
      hide PassedOver, Matches;
      var caseValue := lib.eval.switch(sc.path, gen);
      if caseValue.None? {
        errors := errors + 1;
        return None;
      }
      ghost var value := caseValue.value;
      chosen := None;
      var cur := 0;
      while cur < |gen.items|
        invariant 0 <= cur <= |gen.items| && AllPassed(lib.eval, sc.path, value, gen.items, cur)
        invariant chosen.Some? ==> chosen.value < cur && IsDefault(gen.items[chosen.value])
        invariant forall j :: (if chosen.Some? then chosen.value + 1 else 0) <= j < cur ==> !IsDefault(gen.items[j])
      {
        var item := gen.items[cur];
        if IsDefault(item) {
          chosen := Some(cur);
        } else {
          var idx := 0;
          while idx < TestCount(item)
            invariant 0 <= idx <= TestCount(item)
            invariant forall j: nat :: j < idx ==> Differs(lib.eval, sc.path, value, item, j)
          {
            var itemValue := lib.eval.itemValue(sc.path, item, idx);
            if itemValue.None? {
              NothingTaken(lib.eval, sc.path, gen, cur, idx);
              errors := errors + 1;
              return None;
            }
            if Equal(caseValue.value, itemValue.value) {
              ItMatches(lib.eval, sc.path, value, item, idx);
              PassedHaveNot(sc.path, gen.items, value, cur);
              return Some(cur);
            }
            idx := idx + 1;
          }
        }
        ItPasses(lib.eval, sc.path, value, item);
        cur := cur + 1;
      }
      NoneMatched(lib.eval, sc.path, gen);
      PassedHaveNot(sc.path, gen.items, value, |gen.items|);
    }

    lemma PassedHaveNot(p: Path, items: seq<Gen>, value: Verinum, k: nat)
      requires k <= |items| && AllPassed(lib.eval, p, value, items, k)
      ensures forall j :: 0 <= j < k ==> !HasValue(p, items[j], value)
    {
      hide Equal;
      forall j | 0 <= j < k ensures !HasValue(p, items[j], value) {
        assert PassedOver(lib.eval, p, value, items[j]);
        forall i: nat | i < TestCount(items[j]) && lib.eval.itemValue(p, items[j], i).Some?
          ensures !Equal(value, lib.eval.itemValue(p, items[j], i).value)
        {
          assert Differs(lib.eval, p, value, items[j], i);
        }
      }
    }

    /** PGenerate::generate_scope_case_ */
    method GenerateCase(sc: NetScope, gen: Gen)
      requires Valid() && Good(sc) && sc in scopes && Under(lib, sc.path, gen) && gen.Case?
      modifies this
      ensures Valid() && Grown(old(scopes), old(workList), 2 * Left(sc))
      ensures GenDone(lib, Paths(scopes), sc.path, gen)
      decreases Left(sc), 4, gen, 2
    {
      hide Bounded, Called, Tracked, Required, LoopsEnd, Takes;
      GrownRefl(2 * Left(sc));
      var chosen := ChooseItem(sc, gen);
      if chosen.Some? {
        var item := gen.items[chosen.value];
        assert item in gen.items;
        CaseTakes(lib, sc.path, gen, chosen.value);
        if item.direct { GenerateAll(sc, item.nested, gen); } else { GenerateBlock(sc, item, 0); }
      }
    }

    /** PGenerate::generate_scope_loop_ */
    method GenerateLoop(sc: NetScope, gen: Gen)
      requires Valid() && Good(sc) && sc in scopes && Under(lib, sc.path, gen) && gen.Block? && gen.kind.Loop?
      modifies this
      ensures Valid() && Grown(old(scopes), old(workList), 2 * Left(sc))
      ensures GenDone(lib, Paths(scopes), sc.path, gen)
      decreases Left(sc), 4, gen, 2
    {
      hide Bounded, Called, Tracked, Required, LoopsEnd, AsInt32, GenDone, Turn, TurnsBefore;
      ghost var level := 2 * Left(sc);
      GrownRefl(level);
      FirstTurn(sc.path, gen);
      var init := lib.eval.init(sc.path, gen);
      if init.None? || !lib.eval.testable(sc.path, gen) {
        errors := errors + 1;
        TurnsDone(sc.path, gen, 0);
        return;
      }
      LoopHasEnd(sc, gen);
      ghost var end: nat :| Turn(lib.eval, sc.path, gen, end).None?;
      var genvar := AsInt32(init.value);
      ghost var n: nat := 0;
      while lib.eval.goesOn(sc.path, gen, genvar)
        invariant Valid() && Grown(old(scopes), old(workList), level)
        invariant Turn(lib.eval, sc.path, gen, n)
               == if lib.eval.goesOn(sc.path, gen, genvar) then Some(genvar) else None
        invariant n <= end && TurnsBefore(Paths(scopes), sc.path, gen, n)
        decreases end - n
      {
        ghost var beforeS, beforeW := scopes, workList;
        TurnIsDirect(sc.path, gen, n);
        GenerateBlock(sc, gen, genvar);
        GrownThen(old(scopes), old(workList), beforeS, beforeW, level, level);
        NextTurn(Paths(beforeS), Paths(scopes), sc.path, gen, n);
        var step := lib.eval.step(sc.path, gen, genvar);
        n := n + 1;
        if step.None? {
          errors := errors + 1;
          TurnsDone(sc.path, gen, n);
          return;
        }
        genvar := AsInt32(step.value);
      }
      TurnsDone(sc.path, gen, n);
    }

    lemma FirstTurn(p: Path, gen: Gen)
      requires gen.Block?
      ensures Turn(lib.eval, p, gen, 0)
        == if lib.eval.testable(p, gen) then IfGoesOn(lib.eval, p, gen, lib.eval.init(p, gen)) else None
      ensures forall paths :: TurnsBefore(paths, p, gen, 0)
    {
    }

    lemma NextTurn(paths: set<Path>, paths': set<Path>, p: Path, gen: Gen, n: nat)
      requires gen.Block? && TurnsBefore(paths, p, gen, n) && paths <= paths' && Turn(lib.eval, p, gen, n).Some?
      requires [BlockFrame(gen, Turn(lib.eval, p, gen, n).value)] + p in paths'
      ensures TurnsBefore(paths', p, gen, n + 1)
      ensures Turn(lib.eval, p, gen, n + 1)
        == IfGoesOn(lib.eval, p, gen, lib.eval.step(p, gen, Turn(lib.eval, p, gen, n).value))
    {
    }

    /** The blocks of the first `n` turns are there. */
    ghost predicate TurnsBefore(paths: set<Path>, p: Path, gen: Gen, n: nat)
      requires gen.Block?
    {
      forall j: nat :: j < n ==>
        Turn(lib.eval, p, gen, j).Some? && [BlockFrame(gen, Turn(lib.eval, p, gen, j).value)] + p in paths
    }

    lemma TurnIsDirect(p: Path, gen: Gen, n: nat)
      requires gen.Block? && gen.kind.Loop? && Turn(lib.eval, p, gen, n).Some? && Under(lib, p, gen)
      ensures Required(lib, p, BlockFrame(gen, Turn(lib.eval, p, gen, n).value))
    {
      hide Turn, Required;
      assert Direct(lib, p, gen, BlockFrame(gen, Turn(lib.eval, p, gen, n).value));
    }

    lemma TurnsDone(p: Path, gen: Gen, n: nat)
      requires gen.Block? && gen.kind.Loop? && Turn(lib.eval, p, gen, n).None?
      ensures forall paths :: TurnsBefore(paths, p, gen, n) ==> GenDone(lib, paths, p, gen)
    {
      hide Turn;
      forall m: nat | Turn(lib.eval, p, gen, m).Some? ensures m < n {
        if n <= m { NoTurnAfter(lib.eval, p, gen, n, m); }
      }
    }

    lemma LoopHasEnd(sc: NetScope, gen: Gen)
      requires LoopsEnd(lib) && Good(sc) && Under(lib, sc.path, gen) && gen.Block? && gen.kind.Loop?
      ensures exists end: nat :: Turn(lib.eval, sc.path, gen, end).None?
    {
      assert Ends(lib.eval, sc.path, gen);
    }

    ghost predicate GensDone(paths: set<Path>, p: Path, gens: seq<Gen>, k: nat)
      requires k <= |gens|
    {
      forall j :: 0 <= j < k ==> GenDone(lib, paths, p, gens[j])
    }

    lemma GensStayDone(paths: set<Path>, paths': set<Path>, p: Path, gens: seq<Gen>, k: nat)
      requires k <= |gens| && GensDone(paths, p, gens, k) && paths <= paths'
      ensures GensDone(paths', p, gens, k)
    {
      hide Direct;
    }

    method GenerateAll(sc: NetScope, gens: seq<Gen>, ghost parent: Gen)
      requires Valid() && Good(sc) && sc in scopes
      requires forall g :: g in gens ==> g < parent && Under(lib, sc.path, g)
      modifies this
      ensures Valid() && Grown(old(scopes), old(workList), 2 * Left(sc))
      ensures forall g :: g in gens ==> GenDone(lib, Paths(scopes), sc.path, g)
      decreases Left(sc), 4, parent, 0
    {
      hide Bounded, Called, Tracked, Under, GenDone;
      var level := 2 * Left(sc);
      GrownRefl(level);
      for k := 0 to |gens|
        invariant Valid() && Grown(old(scopes), old(workList), level) && GensDone(Paths(scopes), sc.path, gens, k)
      {
        ghost var beforeS, beforeW := scopes, workList;
        assert gens[k] in gens;
        Generate(sc, gens[k]);
        GrownThen(old(scopes), old(workList), beforeS, beforeW, level, level);
        GensStayDone(Paths(beforeS), Paths(scopes), sc.path, gens, k);
      }
    }

    /** A scope for the block, with its nested schemes and its gates. */
    method GenerateBlock(sc: NetScope, gen: Gen, index: int)
      requires Valid() && Good(sc) && sc in scopes && gen.Block? && Required(lib, sc.path, BlockFrame(gen, index))
      modifies this
      ensures Valid() && Grown(old(scopes), old(workList), 2 * Left(sc))
      ensures [BlockFrame(gen, index)] + sc.path in Paths(scopes)
      decreases Left(sc), 4, gen, 1
    {
      hide Bounded, Called, Tracked, GenDone, GateSettled, Direct;
      var frame := BlockFrame(gen, index);
      BlockFits(sc, frame);
      ChildCalled(lib, sc.path, frame);
      var my := AddScope(sc, frame);
      var level := 2 * Left(sc);
      assert GatesOf(lib, my.path) == gen.gates && GensOf(lib, my.path) == gen.nested;
      ghost var addedS, addedW := scopes, workList;
      GenerateAll(my, gen.nested, gen);
      ghost var generatedS, generatedW := scopes, workList;
      ElaborateGates(my, gen.gates, level);
      GrownThen(addedS, addedW, generatedS, generatedW, level, level);
      assert GensDone(Paths(generatedS), my.path, gen.nested, |gen.nested|);
      GensStayDone(Paths(generatedS), Paths(scopes), my.path, gen.nested, |gen.nested|);
      assert forall g :: g in gen.nested ==> GenDone(lib, Paths(scopes), my.path, g);
      assert Elaborated(lib, Paths(scopes), Pend(workList), my.path);
      ScopeAdded(old(scopes), old(workList), my, sc, level);
    }

    /** elaborate_runrun of a work item: it is done, and what it puts on the list is of a lower level. */
    method Process(it: WorkItem)
      requires Valid() && GoodItem(it) && Local(it)
      modifies this
      ensures Valid() && Grown(old(scopes), old(workList), Level(it) - 1)
      ensures !it.Defparams? ==> Discharged(lib, Paths(scopes), Pend(workList), it.ToPending())
    {
      hide Bounded, Called, GrownTo, GateOk, GenDone, GateDone, Elaborated;
      GrownRefl(Level(it) - 1);
      match it
      case RootScope(sc, moduleName) => ElaborateModule(sc, moduleName);
      case Instances(sc, gate) =>
        ElaborateInstances(sc, gate);
      case Defparams =>
      case Schemes(sc, moduleName) => GenerateSchemes(sc, moduleName);
    }

    method GenerateSchemes(sc: NetScope, moduleName: string)
      requires Valid() && Good(sc) && sc in scopes && sc.frame.InstanceOf(moduleName) && moduleName in lib.modules
      modifies this
      ensures Valid() && Grown(old(scopes), old(workList), 2 * Left(sc))
      ensures forall gen :: gen in GensOf(lib, sc.path) ==> GenDone(lib, Paths(scopes), sc.path, gen)
    {
      hide Bounded, Called, GrownTo, GenDone, GensOf, Direct;
      var level := 2 * Left(sc);
      ModuleParts(sc, moduleName);
      var gens := lib.modules[moduleName].generates;
      GrownRefl(level);
      for k := 0 to |gens|
        invariant Valid() && Grown(old(scopes), old(workList), level)
        invariant old(scopes) <= scopes && GensDone(Paths(scopes), sc.path, gens, k)
      {
        ghost var beforeS, beforeW := scopes, workList;
        assert gens[k] in GensOf(lib, sc.path);
        Generate(sc, gens[k]);
        GrownThen(old(scopes), old(workList), beforeS, beforeW, level, level);
        GrownPrefix(beforeS, beforeW, level);
        GensStayDone(Paths(beforeS), Paths(scopes), sc.path, gens, k);
      }
    }

    lemma GrownPrefix(scopes0: seq<NetScope>, work0: seq<WorkItem>, level: int)
      requires Grown(scopes0, work0, level)
      ensures scopes0 <= scopes && work0 <= workList && Tracked(lib, scopes, workList, |scopes0|)
      ensures forall i :: |work0| <= i < |workList| ==> Level(workList[i]) <= level
    {
    }

    lemma DefparamsLevel()
      ensures Level(Defparams) == 0 && GoodItem(Defparams) && Local(Defparams)
    {
    }

    lemma GrownBelow(scopes0: seq<NetScope>, work0: seq<WorkItem>, level: int, bound: int)
      requires Grown(scopes0, work0, level) && level < bound && forall it :: it in work0 ==> Level(it) < bound
      ensures forall it :: it in workList ==> Level(it) < bound
    {
      hide Level;
      forall it | it in workList ensures Level(it) < bound {
        var i :| 0 <= i < |workList| && workList[i] == it;
        if i < |work0| { assert workList[i] == work0[i]; }
      }
    }

    /** One pass: the items that were on the list, which may put new ones on it. */
    method Pass(curQueue: seq<WorkItem>, ghost bound: int, ghost roots: seq<string>)
      requires Valid() && workList == [] && Growing(lib, scopes, Pend(curQueue), roots)
      requires forall it :: it in curQueue ==> GoodItem(it) && Local(it) && Level(it) < bound
      modifies this
      ensures Valid() && old(scopes) <= scopes && Growing(lib, scopes, Pend(workList), roots)
      ensures forall it :: it in workList ==> Level(it) < bound - 1
    {
      hide Bounded, Called, GrownTo, GoodItem, Good, Level, Growing, Discharged;
      assert curQueue[0..] == curQueue && Pend([]) == {};
      assert Pend(curQueue) + Pend([]) == Pend(curQueue);
      for k := 0 to |curQueue|
        invariant Valid() && old(scopes) <= scopes
        invariant Growing(lib, scopes, Pend(curQueue[k..]) + Pend(workList), roots)
        invariant forall it :: it in workList ==> Level(it) < bound - 1
      {
        ghost var beforeS, beforeW := scopes, workList;
        var it := curQueue[k];
        assert it in curQueue;
        PendFirst(curQueue, k);
        Process(it);
        GrownPrefix(beforeS, beforeW, Level(it) - 1);
        GrownBelow(beforeS, beforeW, Level(it) - 1, bound - 1);
        StepGrows(lib, beforeS, beforeW, scopes, workList, Pend(curQueue[k + 1..]), it, roots);
      }
      assert Pend(curQueue[|curQueue|..]) + Pend(workList) == Pend(workList);
    }

    /** The loop over the work list in elaborate(). */
    method Run(ghost bound: nat, ghost roots: seq<string>) returns (passes: nat)
      requires Valid() && Growing(lib, scopes, Pend(workList), roots)
      requires forall it :: it in workList ==> Level(it) < bound
      modifies this
      ensures Valid() && old(scopes) <= scopes && Growing(lib, scopes, {}, roots) && passes <= bound
    {
      hide Bounded, Called, GrownTo, GoodItem, Good, Level, Growing;
      passes := 0;
      while workList != []
        invariant Valid() && old(scopes) <= scopes && passes <= bound
        invariant Growing(lib, scopes, Pend(workList), roots)
        invariant forall it :: it in workList ==> Level(it) < bound - passes
        decreases bound - passes
      {
        DefparamsLevel();
        assert Level(workList[0]) < bound - passes;
        PendSnoc(workList, Defparams);
        Push(Defparams);
        var curQueue := workList;
        workList := [];
        Pass(curQueue, bound - passes, roots);
        passes := passes + 1;
        if workList != [] {
          assert Level(workList[0]) < bound - passes;
          PendSnoc(workList, Defparams);
          Push(Defparams);
        }
      }
      assert Pend([]) == {};
    }

    /** Module instances on any path nest no deeper than (limit + 1) for each module there is, and each module is
        on it at most limit + 1 times, with a generate block between any two. */
    ghost predicate Nested()
      reads this`scopes
    {
      forall s :: s in scopes ==>
        && ModuleDepth(s.path) <= (lib.limit + 1) * |lib.modules|
        && (forall m :: Count(s.path, m) <= lib.limit + 1)
        && Separated(s.path)
    }

    lemma ValidIsNested()
      requires Valid()
      ensures Nested()
    {
      hide Bounded, Called;
      forall s | s in scopes
        ensures ModuleDepth(s.path) <= (lib.limit + 1) * |lib.modules|
        ensures (forall m :: Count(s.path, m) <= lib.limit + 1) && Separated(s.path)
      {
        assert Good(s);
        BoundedDepth(s.path, lib.modules.Keys, lib.limit);
        BoundedMeans(s.path, lib.modules.Keys, lib.limit);
      }
    }

    /** Main result: scope elaboration from the given root modules ends if every generate loop does, within a number of
        passes over the work list that only depends on the limit and the number of modules.
        The scopes are then exactly the tree that the roots call for, and its paths are bounded. */
    method Elaborate(roots: seq<string>) returns (passes: nat)
      requires scopes == [] && workList == [] && LoopsEnd(lib)
      modifies this
      ensures Valid() && Nested() && IsTree(lib, Paths(scopes), roots)
      ensures passes <= 2 * (lib.limit + 1) * |lib.modules| + 1
    {
      hide Bounded, Called, GoodItem, Good, Growing, Level, Rooted;
      ghost var bound := 2 * (lib.limit + 1) * |lib.modules| + 1;
      NoRoots(lib);
      for k := 0 to |roots|
        invariant Valid() && Growing(lib, scopes, Pend(workList), roots) && Rooted(lib, Paths(scopes), roots[..k])
        invariant forall it :: it in workList ==> Level(it) < bound
      {
        assert roots[..k + 1] == roots[..k] + [roots[k]] && roots[k] in roots;
        ghost var s0, w0 := scopes, workList;
        if roots[k] !in lib.modules {
          errors := errors + 1;
          RootSkipped(lib, Paths(scopes), roots[..k], roots[k]);
        } else {
          RootFits(roots[k]);
          RootCalled(lib, roots[k]);
          var sc := AddScope(null, RootFrame(roots[k]));
          RootLevel(sc, roots[k]);
          assert sc in scopes;
          Push(RootScope(sc, roots[k]));
          RootAdded(lib, s0, w0, sc, RootScope(sc, roots[k]), roots, k);
        }
      }
      assert roots[..|roots|] == roots;
      ghost var s1 := scopes;
      passes := Run(bound, roots);
      PathsGrow(s1, scopes);
      TreeDone(lib, Paths(s1), scopes, roots);
      ValidIsNested();
    }

    lemma RootFits(m: string)
      requires m in lib.modules
      ensures Bounded([RootFrame(m)] + [], lib.modules.Keys, lib.limit)
      ensures Remaining([RootFrame(m)] + [], lib.modules.Keys, lib.limit) == (lib.limit + 1) * |lib.modules| - 1
    {
      assert Bounded([], lib.modules.Keys, lib.limit);
      AllowedKeepsBounds(RootFrame(m), [], lib.modules.Keys, lib.limit);
      RemainingDrops(RootFrame(m), [], lib.modules.Keys, lib.limit);
      assert CountIn([], lib.modules.Keys) == 0;
      assert |lib.modules.Keys| == |lib.modules|;
    }

    lemma RootLevel(sc: NetScope, m: string)
      requires Good(sc) && m in lib.modules && sc.frame == RootFrame(m) && sc.path == [RootFrame(m)] + []
      ensures GoodItem(RootScope(sc, m)) && Level(RootScope(sc, m)) == 2 * (lib.limit + 1) * |lib.modules|
    {
      hide Bounded, Called;
      RootFits(m);
      Twice(lib.limit + 1, |lib.modules|);
    }
  }

  lemma CountedAndNamed(lib: Library, p: Path, gate: Gate)
    requires GateOk(lib, p, gate)
    ensures var bounds := if gate.isArray then lib.eval.bounds(p, gate) else None;
      if bounds.None? then InstanceCount(lib, p, gate) == 1 && forall i: nat :: InstanceIndex(lib, p, gate, i) == 0
      else
        var high, low := bounds.value.msb, bounds.value.lsb;
        && InstanceCount(lib, p, gate) == (if high > low then high - low + 1 else low - high + 1)
        && forall i: nat :: InstanceIndex(lib, p, gate, i) == if low < high then AsInt32(low + i) else AsInt32(low - i)
  {
  }

  lemma ItMatches(eval: Evaluation, p: Path, value: Verinum, item: Gen, i: nat)
    requires i < TestCount(item) && MatchesAt(eval, p, value, item, i)
    requires forall j: nat :: j < i ==> Differs(eval, p, value, item, j)
    ensures Matches(eval, p, value, item)
  {
  }

  lemma ItPasses(eval: Evaluation, p: Path, value: Verinum, item: Gen)
    requires forall j: nat :: j < TestCount(item) ==> Differs(eval, p, value, item, j)
    ensures PassedOver(eval, p, value, item)
  {
  }

  lemma NoneMatched(eval: Evaluation, p: Path, gen: Gen)
    requires gen.Case? && eval.switch(p, gen).Some?
    requires AllPassed(eval, p, eval.switch(p, gen).value, gen.items, |gen.items|)
    ensures forall k: nat :: k < |gen.items| ==> !Matches(eval, p, eval.switch(p, gen).value, gen.items[k])
  {
    hide PassedOver, Matches;
    var value := eval.switch(p, gen).value;
    forall k: nat | k < |gen.items| ensures !Matches(eval, p, value, gen.items[k]) {
      MatchedIsNotPassed(eval, p, value, gen.items[k]);
    }
  }

  lemma ChildCalled(lib: Library, p: Path, f: Frame)
    requires Called(lib, p) && Required(lib, p, f)
    ensures Called(lib, [f] + p)
  {
    hide Required;
    assert ([f] + p)[1..] == p;
  }

  lemma RootCalled(lib: Library, m: string)
    requires m in lib.modules
    ensures Called(lib, [RootFrame(m)] + [])
  {
  }

  lemma NoRoots(lib: Library)
    ensures Growing(lib, [], Pend([]), []) && Rooted(lib, Paths([]), [])
    ensures forall roots :: Growing(lib, [], Pend([]), roots)
  {
  }

  lemma RootSkipped(lib: Library, paths: set<Path>, roots: seq<string>, r: string)
    requires Rooted(lib, paths, roots) && r !in lib.modules
    ensures Rooted(lib, paths, roots + [r])
  {
  }

  lemma RootAdded(lib: Library, s0: seq<NetScope>, w0: seq<WorkItem>, sc: NetScope, it: WorkItem, roots: seq<string>,
                  k: nat)
    requires k < |roots| && roots[k] in lib.modules
    requires sc.path == [RootFrame(roots[k])] + [] && it == RootScope(sc, roots[k])
    requires Growing(lib, s0, Pend(w0), roots) && Rooted(lib, Paths(s0), roots[..k])
    ensures Growing(lib, s0 + [sc], Pend(w0 + [it]), roots) && Rooted(lib, Paths(s0 + [sc]), roots[..k] + [roots[k]])
  {
    hide Elaborated, Required;
    PathsSnoc(s0, sc);
    PendSnoc(w0, it);
    var s1, pend := s0 + [sc], Pend(w0 + [it]);
    assert sc.path == [RootFrame(roots[k])];
    forall i | 0 <= i < |s1|
      ensures Settled(lib, Paths(s1), pend, s1[i].path) && Justified(lib, Paths(s1), roots, s1[i].path)
    {
      if i < |s0| {
        SettledGrows(lib, Paths(s0), Pend(w0), Paths(s1), pend, s0[i].path);
        JustifiedGrows(lib, Paths(s0), Paths(s1), roots, s0[i].path);
      } else {
        assert PRoot(sc.path) in pend && roots[k] in roots;
      }
    }
  }

  lemma TreeDone(lib: Library, rooted: set<Path>, scopes: seq<NetScope>, roots: seq<string>)
    requires Growing(lib, scopes, {}, roots) && Rooted(lib, rooted, roots) && rooted <= Paths(scopes)
    ensures IsTree(lib, Paths(scopes), roots)
  {
    hide Settled, Justified, Complete;
    forall p | p in Paths(scopes)
      ensures Settled(lib, Paths(scopes), {}, p) && Justified(lib, Paths(scopes), roots, p)
    {
      var s :| s in scopes && s.path == p;
      var i :| 0 <= i < |scopes| && scopes[i] == s;
    }
    SettledIsComplete(lib, Paths(scopes));
  }

  lemma Twice(a: nat, b: nat)
    ensures 2 * (a * b) == 2 * a * b
  {
  }

  lemma BoundedMeans(path: Path, names: set<string>, limit: nat)
    ensures Bounded(path, names, limit) ==> (forall m :: Count(path, m) <= limit + 1) && Separated(path)
  {
  }
}
