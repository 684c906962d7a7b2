/** The scope tree a design calls for: which scopes a scope must have below it. */
module ScopeTrees {
  import opened Logic4
  import opened ScopePaths
  import opened Verinums

  datatype ModuleDef = ModuleDef(gates: seq<Gate>, generates: seq<Gen>)

  /** What the expressions in the source evaluate to, scope by scope; None where that is no constant. For a
      loop: the start of its genvar, whether its test is a constant, what the test gives for a value of the
      genvar, and the value after that one. For a case: the value it switches on, and those of its items. And
      the bounds of an array of instances. */
  datatype Evaluation = Evaluation(
    init: (Path, Gen) -> Option<int>,
    testable: (Path, Gen) -> bool,
    goesOn: (Path, Gen, int) -> bool,
    step: (Path, Gen, int) -> Option<int>,
    test: (Path, Gen) -> Option<int>,
    switch: (Path, Gen) -> Option<Verinum>,
    itemValue: (Path, Gen, nat) -> Option<Verinum>,
    bounds: (Path, Gate) -> Option<Bounds>)

  datatype Bounds = Bounds(msb: int, lsb: int)

  datatype Library = Library(modules: map<string, ModuleDef>, limit: nat, eval: Evaluation)

  function BlockFrame(gen: Gen, index: int): Frame
    requires gen.Block?
  { Frame(GenBlock(gen), gen.name, index, "") }

  function InstanceFrame(gate: Gate, index: int): Frame { Frame(ModuleScope, gate.name, index, gate.moduleName) }

  function RootFrame(m: string): Frame { Frame(ModuleScope, m, 0, m) }

  // ----- generate loops -----

  /** Genvars and the numbers of instances are kept in 32 bits. */
  function AsInt32(n: int): int
  {
    var low := n % 0x1_0000_0000;
    if low < 0x8000_0000 then low else low - 0x1_0000_0000
  }

  /** That is the number itself within 32 bits, and else the one in that range that differs by a multiple of 2^32. */
  lemma Int32Law(n: int)
    ensures -0x8000_0000 <= AsInt32(n) < 0x8000_0000 && (AsInt32(n) - n) % 0x1_0000_0000 == 0
    ensures -0x8000_0000 <= n < 0x8000_0000 ==> AsInt32(n) == n
  {
    var m := 0x1_0000_0000;
    assert n == (n / m) * m + n % m;
    assert (AsInt32(n) - n) % m == 0 by {
      if n % m < 0x8000_0000 { Multiples(-(n / m)); assert AsInt32(n) - n == -(n / m) * m; }
      else { Multiples(-(n / m) - 1); assert AsInt32(n) - n == (-(n / m) - 1) * m; }
    }
  }

  lemma Multiples(k: int)
    ensures (k * 0x1_0000_0000) % 0x1_0000_0000 == 0
  {
  }

  function IfGoesOn(eval: Evaluation, p: Path, gen: Gen, next: Option<int>): Option<int>
  {
    if next.Some? && eval.goesOn(p, gen, AsInt32(next.value)) then Some(AsInt32(next.value)) else None
  }

  /** The value of the genvar in turn `n` of the loop, if there is such a turn. */
  function Turn(eval: Evaluation, p: Path, gen: Gen, n: nat): Option<int>
  {
    if n == 0 then (if eval.testable(p, gen) then IfGoesOn(eval, p, gen, eval.init(p, gen)) else None)
    else
      var v := Turn(eval, p, gen, n - 1);
      if v.None? then None else IfGoesOn(eval, p, gen, eval.step(p, gen, v.value))
  }

  ghost predicate Ends(eval: Evaluation, p: Path, gen: Gen) { exists n :: Turn(eval, p, gen, n).None? }

  lemma {:induction false} NoTurnAfter(eval: Evaluation, p: Path, gen: Gen, n: nat, m: nat)
    requires Turn(eval, p, gen, n).None? && n <= m
    ensures Turn(eval, p, gen, m).None?
    decreases m
  {
    if n < m { NoTurnAfter(eval, p, gen, n, m - 1); }
  }

  lemma {:induction false} SameTurns(eval: Evaluation, p: Path, gen: Gen, n: nat, m: nat, k: nat)
    requires Turn(eval, p, gen, n).Some? && Turn(eval, p, gen, n) == Turn(eval, p, gen, m)
    ensures Turn(eval, p, gen, n + k) == Turn(eval, p, gen, m + k)
  {
    if k > 0 { SameTurns(eval, p, gen, n, m, k - 1); }
  }

  lemma {:induction false} TurnsGoRound(eval: Evaluation, p: Path, gen: Gen, n: nat, m: nat, k: nat)
    requires n < m && Turn(eval, p, gen, n).Some? && Turn(eval, p, gen, n) == Turn(eval, p, gen, m)
    ensures Turn(eval, p, gen, n + k).Some?
    decreases k
  {
    if n + k > m {
      SameTurns(eval, p, gen, n, m, n + k - m);
      TurnsGoRound(eval, p, gen, n, m, n + k - m);
    } else if Turn(eval, p, gen, n + k).None? {
      NoTurnAfter(eval, p, gen, n + k, m);
    }
  }

  /** Main result: a loop that ends gives each of its blocks a name of its own. */
  lemma TurnsDiffer(eval: Evaluation, p: Path, gen: Gen, n: nat, m: nat)
    requires Ends(eval, p, gen) && n < m && Turn(eval, p, gen, m).Some?
    ensures Turn(eval, p, gen, n).Some? && Turn(eval, p, gen, n).value != Turn(eval, p, gen, m).value
  {
    if Turn(eval, p, gen, n).None? { NoTurnAfter(eval, p, gen, n, m); }
    if Turn(eval, p, gen, n) == Turn(eval, p, gen, m) {
      var end: nat :| Turn(eval, p, gen, end).None?;
      if end <= n { NoTurnAfter(eval, p, gen, end, n); } else { TurnsGoRound(eval, p, gen, n, m, end - n); }
    }
  }

  // ----- generate cases -----

  function TestCount(item: Gen): nat { if item.Block? && item.kind.CaseItem? then item.kind.tests else 0 }

  predicate IsDefault(item: Gen) { item.Block? && item.kind.CaseItem? && item.kind.tests == 0 }

  /** Expression `i` of the item is a constant other than `value`. */
  predicate Differs(eval: Evaluation, p: Path, value: Verinum, item: Gen, i: nat)
  {
    var other := eval.itemValue(p, item, i);
    other.Some? && !Equal(value, other.value)
  }

  predicate MatchesAt(eval: Evaluation, p: Path, value: Verinum, item: Gen, i: nat)
  {
    var other := eval.itemValue(p, item, i);
    other.Some? && Equal(value, other.value)
  }

  /** No expression of the item matches, and all are constants: the default, for one, is passed over. */
  predicate PassedOver(eval: Evaluation, p: Path, value: Verinum, item: Gen)
  {
    forall i: nat :: i < TestCount(item) ==> Differs(eval, p, value, item, i)
  }

  /** An expression matches, and those before it are constants. */
  predicate Matches(eval: Evaluation, p: Path, value: Verinum, item: Gen)
  {
    exists i: nat :: i < TestCount(item) && MatchesAt(eval, p, value, item, i)
                     && forall j: nat :: j < i ==> Differs(eval, p, value, item, j)
  }

  predicate AllPassed(eval: Evaluation, p: Path, value: Verinum, items: seq<Gen>, k: nat)
    requires k <= |items|
  {
    forall j :: 0 <= j < k ==> PassedOver(eval, p, value, items[j])
  }

  /** The case takes item `k`: the first one that matches, else the last default. */
  predicate Takes(eval: Evaluation, p: Path, gen: Gen, k: nat): (taken: bool)
    requires gen.Case?
    ensures taken ==> k < |gen.items| && gen.items[k].Block?
  {
    var value := eval.switch(p, gen);
    && value.Some? && k < |gen.items|
    && (|| (AllPassed(eval, p, value.value, gen.items, k) && Matches(eval, p, value.value, gen.items[k]))
        || (AllPassed(eval, p, value.value, gen.items, |gen.items|) && IsDefault(gen.items[k])
            && forall j :: k < j < |gen.items| ==> !IsDefault(gen.items[j])))
  }

  lemma MatchedIsNotPassed(eval: Evaluation, p: Path, value: Verinum, item: Gen)
    ensures !(Matches(eval, p, value, item) && PassedOver(eval, p, value, item))
  {
    if i: nat :| i < TestCount(item) && MatchesAt(eval, p, value, item, i) {
      assert !Differs(eval, p, value, item, i);
    }
  }

  /** Main result: a case takes at most one of its items. */
  lemma TakesOne(eval: Evaluation, p: Path, gen: Gen, k: nat, k': nat)
    requires gen.Case? && Takes(eval, p, gen, k) && Takes(eval, p, gen, k')
    ensures k == k'
  {
    hide PassedOver, Matches;
    var value := eval.switch(p, gen).value;
    MatchedIsNotPassed(eval, p, value, gen.items[k]);
    MatchedIsNotPassed(eval, p, value, gen.items[k']);
  }

  /** An expression that is no constant, met before any match, leaves the case without an item. */
  lemma NothingTaken(eval: Evaluation, p: Path, gen: Gen, cur: nat, idx: nat)
    requires gen.Case? && eval.switch(p, gen).Some? && cur < |gen.items| && idx < TestCount(gen.items[cur])
    requires AllPassed(eval, p, eval.switch(p, gen).value, gen.items, cur)
    requires forall j: nat :: j < idx ==> Differs(eval, p, eval.switch(p, gen).value, gen.items[cur], j)
    requires eval.itemValue(p, gen.items[cur], idx).None?
    ensures forall k: nat :: !Takes(eval, p, gen, k)
  {
    hide Matches, PassedOver;
    var value := eval.switch(p, gen).value;
    var item := gen.items[cur];
    NotPassed(eval, p, value, item, idx);
    UnmatchedAt(eval, p, value, item, idx);
    forall k: nat | k < |gen.items|
      ensures !(AllPassed(eval, p, value, gen.items, k) && Matches(eval, p, value, gen.items[k]))
    {
      MatchedIsNotPassed(eval, p, value, gen.items[k]);
    }
  }

  lemma NotPassed(eval: Evaluation, p: Path, value: Verinum, item: Gen, idx: nat)
    requires idx < TestCount(item) && eval.itemValue(p, item, idx).None?
    ensures !PassedOver(eval, p, value, item)
  {
    assert !Differs(eval, p, value, item, idx);
  }

  lemma UnmatchedAt(eval: Evaluation, p: Path, value: Verinum, item: Gen, idx: nat)
    requires eval.itemValue(p, item, idx).None? && forall j: nat :: j < idx ==> Differs(eval, p, value, item, j)
    ensures !Matches(eval, p, value, item)
  {
    forall i: nat
      ensures !(MatchesAt(eval, p, value, item, i) && forall j: nat :: j < i ==> Differs(eval, p, value, item, j))
    {
      if i < idx { assert Differs(eval, p, value, item, i); } else { assert !Differs(eval, p, value, item, idx); }
    }
  }

  // ----- what a scope calls for -----

  /** The scheme puts the block scope `f` directly under `p`. */
  ghost predicate Direct(lib: Library, p: Path, gen: Gen, f: Frame)
    decreases gen
  {
    match gen
    case Case(items) =>
      exists k: nat :: Takes(lib.eval, p, gen, k) && BlockOrNested(lib, p, gen, items[k], f)
    case Block(kind, _, _, nested, direct) =>
      match kind
      case Loop =>
        exists n: nat :: Turn(lib.eval, p, gen, n).Some? && f == BlockFrame(gen, Turn(lib.eval, p, gen, n).value)
      case NamedBlock => f == BlockFrame(gen, 0)
      case CaseItem(_) => false
      case _ =>
        && lib.eval.test(p, gen).Some? && (lib.eval.test(p, gen).value != 0) == kind.Condit?
        && if direct then exists g :: g in nested && Direct(lib, p, g, f) else f == BlockFrame(gen, 0)
  }

  ghost predicate BlockOrNested(lib: Library, p: Path, parent: Gen, item: Gen, f: Frame)
    requires item < parent && item.Block?
    decreases parent, 0
  {
    if item.direct then exists g :: g in item.nested && Direct(lib, p, g, f) else f == BlockFrame(item, 0)
  }

  /** A case puts there what the item it takes puts there. */
  lemma CaseTakes(lib: Library, p: Path, gen: Gen, k: nat)
    requires gen.Case? && Takes(lib.eval, p, gen, k)
    ensures var item := gen.items[k];
      && (forall g :: g in item.nested ==> g < gen)
      && forall f :: Direct(lib, p, gen, f) <==>
           if item.direct then exists g :: g in item.nested && Direct(lib, p, g, f) else f == BlockFrame(item, 0)
  {
    hide Takes;
    var item := gen.items[k];
    assert item in gen.items;
    forall f ensures Direct(lib, p, gen, f) <==> BlockOrNested(lib, p, gen, item, f) {
      if Direct(lib, p, gen, f) {
        var k': nat :| Takes(lib.eval, p, gen, k') && BlockOrNested(lib, p, gen, gen.items[k'], f);
        TakesOne(lib.eval, p, gen, k, k');
      }
    }
  }

  predicate GateOk(lib: Library, p: Path, gate: Gate)
  {
    gate.moduleName in lib.modules && gate.name != "" && Allowed(p, gate.moduleName, lib.limit)
  }

  /** One instance, unless it is an array with constant bounds. */
  function InstanceCount(lib: Library, p: Path, gate: Gate): nat
  {
    var bounds := lib.eval.bounds(p, gate);
    if !GateOk(lib, p, gate) then 0
    else if !gate.isArray || bounds.None? then 1
    else if bounds.value.msb > bounds.value.lsb then bounds.value.msb - bounds.value.lsb + 1
    else bounds.value.lsb - bounds.value.msb + 1
  }

  /** The number of instance `idx` in its name: from the right bound towards the left one. */
  function InstanceIndex(lib: Library, p: Path, gate: Gate, idx: nat): int
  {
    var bounds := lib.eval.bounds(p, gate);
    if !gate.isArray || bounds.None? then 0
    else if bounds.value.lsb < bounds.value.msb then AsInt32(bounds.value.lsb + idx)
    else AsInt32(bounds.value.lsb - idx)
  }

  function InstanceAt(lib: Library, p: Path, gate: Gate, idx: nat): Frame
  {
    InstanceFrame(gate, InstanceIndex(lib, p, gate, idx))
  }

  lemma SameInt32(x: int, y: int)
    requires AsInt32(x) == AsInt32(y)
    ensures (x - y) % 0x1_0000_0000 == 0
  {
    var m := 0x1_0000_0000;
    assert x % m == y % m;
    assert x - y == (x / m - y / m) * m;
  }

  /** No two instances of an array have one name, up to the 2^32 that an index can tell apart; and the last one has
      the number of the left bound. */
  lemma InstancesDiffer(lib: Library, p: Path, gate: Gate, i: nat, j: nat)
    requires i < j < InstanceCount(lib, p, gate) <= 0x1_0000_0000
    ensures InstanceAt(lib, p, gate, i) != InstanceAt(lib, p, gate, j)
    ensures lib.eval.bounds(p, gate).Some?
    ensures InstanceIndex(lib, p, gate, 0) == AsInt32(lib.eval.bounds(p, gate).value.lsb)
    ensures InstanceIndex(lib, p, gate, InstanceCount(lib, p, gate) - 1) == AsInt32(lib.eval.bounds(p, gate).value.msb)
  {
    hide AsInt32;
    var lsb := lib.eval.bounds(p, gate).value.lsb;
    if AsInt32(lsb + i) == AsInt32(lsb + j) { SameInt32(lsb + j, lsb + i); }
    if AsInt32(lsb - i) == AsInt32(lsb - j) { SameInt32(lsb - i, lsb - j); }
  }

  function GatesOf(lib: Library, p: Path): seq<Gate>
  {
    if |p| == 0 then []
    else match p[0].kind
         case ModuleScope => if p[0].moduleName in lib.modules then lib.modules[p[0].moduleName].gates else []
         case GenBlock(gen) => if gen.Block? then gen.gates else []
  }

  function GensOf(lib: Library, p: Path): seq<Gen>
  {
    if |p| == 0 then []
    else match p[0].kind
         case ModuleScope => if p[0].moduleName in lib.modules then lib.modules[p[0].moduleName].generates else []
         case GenBlock(gen) => if gen.Block? then gen.nested else []
  }

  /** The scope at `p` must have a child `f`: an instance of one of its gates, or a block of one of its schemes. */
  ghost predicate Required(lib: Library, p: Path, f: Frame)
  {
    || (exists gate, idx ::
          gate in GatesOf(lib, p) && 0 <= idx < InstanceCount(lib, p, gate) && f == InstanceAt(lib, p, gate, idx))
    || (exists gen :: gen in GensOf(lib, p) && Direct(lib, p, gen, f))
  }

  /** The scope is called for below some root: every scope on its path is one its parent must have. */
  ghost predicate Called(lib: Library, p: Path)
  {
    && |p| > 0
    && if |p| == 1 then exists m :: m in lib.modules && p[0] == RootFrame(m)
       else Called(lib, p[1..]) && Required(lib, p[1..], p[0])
  }

  /** What the scheme puts under `p`, `p` must have: it is one of its schemes, or nested directly in one. */
  ghost predicate Under(lib: Library, p: Path, gen: Gen) { forall f :: Direct(lib, p, gen, f) ==> Required(lib, p, f) }

  /** No generate loop of a scope that is called for goes on for ever. */
  ghost predicate LoopsEnd(lib: Library)
  {
    forall p: Path, gen: Gen :: Called(lib, p) && Under(lib, p, gen) && gen.Block? && gen.kind.Loop? ==>
      Ends(lib.eval, p, gen)
  }

  /** Every scope has all the children it must have. */
  ghost predicate Complete(lib: Library, paths: set<Path>)
  {
    forall p, f :: p in paths && Required(lib, p, f) ==> [f] + p in paths
  }

  /** Every scope is a root, or a child its parent must have. */
  ghost predicate Justified(lib: Library, paths: set<Path>, roots: seq<string>, p: Path)
  {
    || (exists r :: r in roots && r in lib.modules && p == [RootFrame(r)])
    || (|p| > 1 && p[1..] in paths && Required(lib, p[1..], p[0]))
  }

  // ----- children that are still on the work list -----

  datatype Pending = PRoot(p: Path) | PGens(p: Path) | PGate(p: Path, gate: Gate)

  ghost predicate GateDone(lib: Library, paths: set<Path>, p: Path, gate: Gate)
  {
    forall idx :: 0 <= idx < InstanceCount(lib, p, gate) ==> [InstanceAt(lib, p, gate, idx)] + p in paths
  }

  ghost predicate GateSettled(lib: Library, paths: set<Path>, pend: set<Pending>, p: Path, gate: Gate)
  {
    GateDone(lib, paths, p, gate) || PGate(p, gate) in pend
  }

  ghost predicate GenDone(lib: Library, paths: set<Path>, p: Path, gen: Gen)
  {
    forall f :: Direct(lib, p, gen, f) ==> [f] + p in paths
  }

  ghost predicate GensSettled(lib: Library, paths: set<Path>, pend: set<Pending>, p: Path)
  {
    PGens(p) in pend || forall gen :: gen in GensOf(lib, p) ==> GenDone(lib, paths, p, gen)
  }

  ghost predicate Elaborated(lib: Library, paths: set<Path>, pend: set<Pending>, p: Path)
  {
    && (forall gate :: gate in GatesOf(lib, p) ==> GateSettled(lib, paths, pend, p, gate))
    && GensSettled(lib, paths, pend, p)
  }

  /** The children of `p` are there, or the work list will see to them. */
  ghost predicate Settled(lib: Library, paths: set<Path>, pend: set<Pending>, p: Path)
  {
    PRoot(p) in pend || Elaborated(lib, paths, pend, p)
  }

  lemma ElaboratedGrows(lib: Library, paths: set<Path>, pend: set<Pending>, paths': set<Path>, pend': set<Pending>,
                        p: Path)
    requires paths <= paths' && pend <= pend' && Elaborated(lib, paths, pend, p)
    ensures Elaborated(lib, paths', pend', p)
  {
    hide InstanceCount, Direct, GatesOf, GensOf;
  }

  lemma SettledGrows(lib: Library, paths: set<Path>, pend: set<Pending>, paths': set<Path>, pend': set<Pending>,
                     p: Path)
    requires paths <= paths' && pend <= pend' && Settled(lib, paths, pend, p)
    ensures Settled(lib, paths', pend', p)
  {
    hide Elaborated;
    if Elaborated(lib, paths, pend, p) { ElaboratedGrows(lib, paths, pend, paths', pend', p); }
  }

  /** The work item has been done. */
  ghost predicate Discharged(lib: Library, paths: set<Path>, pend: set<Pending>, it: Pending)
  {
    match it
    case PRoot(p) => Elaborated(lib, paths, pend, p)
    case PGens(p) => forall gen :: gen in GensOf(lib, p) ==> GenDone(lib, paths, p, gen)
    case PGate(p, gate) => GateDone(lib, paths, p, gate)
  }

  lemma DischargedGrows(lib: Library, paths: set<Path>, pend: set<Pending>, pend': set<Pending>, it: Pending)
    requires pend <= pend' && Discharged(lib, paths, pend, it)
    ensures Discharged(lib, paths, pend', it)
  {
    hide Elaborated, GenDone, GateDone;
    if it.PRoot? { ElaboratedGrows(lib, paths, pend, paths, pend', it.p); }
  }

  lemma JustifiedGrows(lib: Library, paths: set<Path>, paths': set<Path>, roots: seq<string>, p: Path)
    requires paths <= paths' && Justified(lib, paths, roots, p)
    ensures Justified(lib, paths', roots, p)
  {
    hide Required;
  }

  /** Once an item is done, nothing depends on it being on the list. */
  lemma DischargedSettles(lib: Library, paths: set<Path>, pend: set<Pending>, it: Pending, p: Path)
    requires Settled(lib, paths, pend + {it}, p) && Discharged(lib, paths, pend, it)
    ensures Settled(lib, paths, pend, p)
  {
    hide InstanceCount, Direct, GatesOf, GensOf, GateDone, GenDone;
  }

  /** With nothing left on the list, a settled tree is complete. */
  lemma SettledIsComplete(lib: Library, paths: set<Path>)
    requires forall p :: p in paths ==> Settled(lib, paths, {}, p)
    ensures Complete(lib, paths)
  {
    hide InstanceCount, Direct, GatesOf, GensOf;
    forall p, f | p in paths && Required(lib, p, f) ensures [f] + p in paths {
      assert Elaborated(lib, paths, {}, p);
      if gate, idx :| gate in GatesOf(lib, p) && 0 <= idx < InstanceCount(lib, p, gate)
                      && f == InstanceAt(lib, p, gate, idx)
      {
        assert GateSettled(lib, paths, {}, p, gate);
      } else {
        var gen :| gen in GensOf(lib, p) && Direct(lib, p, gen, f);
        assert GenDone(lib, paths, p, gen);
      }
    }
  }

  /** Every root module has its scope. */
  ghost predicate Rooted(lib: Library, paths: set<Path>, roots: seq<string>)
  {
    forall r :: r in roots && r in lib.modules ==> [RootFrame(r)] in paths
  }

  /** `paths` is the scope tree for these roots: all that is called for, and nothing else. */
  ghost predicate IsTree(lib: Library, paths: set<Path>, roots: seq<string>)
  {
    && Rooted(lib, paths, roots) && Complete(lib, paths)
    && forall p :: p in paths ==> Justified(lib, paths, roots, p)
  }

  /** Main result: there is at most one such tree. */
  lemma {:induction false} InTheTree(lib: Library, a: set<Path>, b: set<Path>, roots: seq<string>, p: Path)
    requires IsTree(lib, a, roots) && IsTree(lib, b, roots) && p in a
    ensures p in b
    decreases |p|
  {
    hide Required;
    assert Justified(lib, a, roots, p);
    if |p| > 1 && p[1..] in a && Required(lib, p[1..], p[0]) {
      InTheTree(lib, a, b, roots, p[1..]);
      assert [p[0]] + p[1..] in b;
      assert [p[0]] + p[1..] == p;
    }
  }
}
