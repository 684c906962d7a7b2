/** What the scope tree is, said of the names and numbers in the source: the blocks of a generate loop, of a
    condition and of a named block, and the instances of a gate. */
module ScopeLaws {
  import opened Logic4
  import opened ScopePaths
  import opened ScopeTrees
  import opened Verinums

  /** The module or block at `p` has this generate scheme. */
  predicate HasGen(lib: Library, p: Path, gen: Gen)
  {
    && |p| > 0
    && match p[0].kind
       case ModuleScope => p[0].moduleName in lib.modules && gen in lib.modules[p[0].moduleName].generates
       case GenBlock(block) => block.Block? && gen in block.nested
  }

  predicate HasGate(lib: Library, p: Path, gate: Gate)
  {
    && |p| > 0
    && match p[0].kind
       case ModuleScope => p[0].moduleName in lib.modules && gate in lib.modules[p[0].moduleName].gates
       case GenBlock(block) => block.Block? && gate in block.gates
  }

  /** A child of `p` with frame `f` is in the tree. */
  predicate Child(paths: set<Path>, p: Path, f: Frame) { [f] + p in paths }

  lemma TreeChild(lib: Library, paths: set<Path>, roots: seq<string>, p: Path, f: Frame)
    requires IsTree(lib, paths, roots) && p in paths
    ensures |p| > 0
    ensures Child(paths, p, f) <==> Required(lib, p, f)
  {
    hide Required;
    assert Justified(lib, paths, roots, p);
    var q := [f] + p;
    assert q[0] == f && q[1..] == p;
    if q in paths { assert Justified(lib, paths, roots, q); }
  }

  /** Only the scheme itself puts its block anywhere, wherever it is nested. */
  lemma {:induction false} PutByItself(lib: Library, p: Path, g: Gen, gen: Gen, f: Frame)
    requires Direct(lib, p, g, f) && f.kind == GenBlock(gen) && gen.Block? && !gen.kind.CaseItem?
    ensures Direct(lib, p, gen, f)
    decreases g
  {
    match g {
      case Case(items) =>
        var k: nat :| Takes(lib.eval, p, g, k) && BlockOrNested(lib, p, g, items[k], f);
        var item := items[k];
        assert item in items;
        TakenIsItem(lib.eval, p, g, k);
        if item.direct {
          var n :| n in item.nested && Direct(lib, p, n, f);
          PutByItself(lib, p, n, gen, f);
        }
      case Block(kind, _, _, nested, direct) =>
        if direct && (kind.Condit? || kind.Else?) {
          var n :| n in nested && Direct(lib, p, n, f);
          PutByItself(lib, p, n, gen, f);
        }
    }
  }

  lemma TakenIsItem(eval: Evaluation, p: Path, gen: Gen, k: nat)
    requires gen.Case? && Takes(eval, p, gen, k)
    ensures gen.items[k].Block? && gen.items[k].kind.CaseItem?
  {
  }

  /** The block of a scheme of `p` is there exactly when the scheme puts it there. */
  lemma BlockChild(lib: Library, paths: set<Path>, roots: seq<string>, p: Path, gen: Gen, f: Frame)
    requires IsTree(lib, paths, roots) && p in paths && HasGen(lib, p, gen)
    requires gen.Block? && !gen.kind.CaseItem? && f.kind == GenBlock(gen)
    ensures Child(paths, p, f) <==> Direct(lib, p, gen, f)
  {
    hide IsTree, Direct;
    TreeChild(lib, paths, roots, p, f);
    assert gen in GensOf(lib, p);
    if Required(lib, p, f) {
      var g :| g in GensOf(lib, p) && Direct(lib, p, g, f);
      PutByItself(lib, p, g, gen, f);
    }
  }

  // ----- generate loops -----

  /** `for (i = first; i < end; i = i + 1)`, within 32 bits. */
  ghost predicate CountsUp(eval: Evaluation, p: Path, gen: Gen, first: int, end: int)
  {
    && -0x8000_0000 <= first < 0x8000_0000 && end < 0x8000_0000
    && eval.init(p, gen) == Some(first) && eval.testable(p, gen)
    && (forall v :: eval.goesOn(p, gen, v) <==> v < end)
    && (forall v :: eval.step(p, gen, v) == Some(v + 1))
  }

  lemma {:induction false} TurnCounts(eval: Evaluation, p: Path, gen: Gen, first: int, end: int, n: nat)
    requires CountsUp(eval, p, gen, first, end)
    ensures Turn(eval, p, gen, n) == if first + n < end then Some(first + n) else None
  {
    hide AsInt32;
    Int32Law(first);
    if n > 0 {
      TurnCounts(eval, p, gen, first, end, n - 1);
      if first + n - 1 < end { Int32Law(first + n); }
    }
  }

  /** Main result: the blocks of a loop that counts up are exactly those numbered from the first value to the one
      before the end, under the name of the loop. */
  lemma LoopBlocks(lib: Library, paths: set<Path>, roots: seq<string>, p: Path, gen: Gen, first: int, end: int,
                   f: Frame)
    requires IsTree(lib, paths, roots) && p in paths && HasGen(lib, p, gen) && gen.Block? && gen.kind.Loop?
    requires CountsUp(lib.eval, p, gen, first, end) && f.kind == GenBlock(gen)
    ensures Child(paths, p, f) <==> first <= f.index < end && f == Frame(GenBlock(gen), gen.name, f.index, "")
  {
    hide IsTree, Turn;
    BlockChild(lib, paths, roots, p, gen, f);
    forall n: nat
      ensures Turn(lib.eval, p, gen, n) == if first + n < end then Some(first + n) else None
    {
      TurnCounts(lib.eval, p, gen, first, end, n);
    }
    if first <= f.index < end && f == Frame(GenBlock(gen), gen.name, f.index, "") {
      assert f == BlockFrame(gen, Turn(lib.eval, p, gen, f.index - first).value);
    }
  }

  // ----- conditions and named blocks -----

  /** Main result: the block of a condition is there exactly when the condition is a constant with the truth value
      of its branch, that of a named block always; under its own name. */
  lemma OtherBlocks(lib: Library, paths: set<Path>, roots: seq<string>, p: Path, gen: Gen, f: Frame)
    requires IsTree(lib, paths, roots) && p in paths && HasGen(lib, p, gen) && gen.Block? && f.kind == GenBlock(gen)
    ensures gen.kind.NamedBlock? ==> (Child(paths, p, f) <==> f == Frame(GenBlock(gen), gen.name, 0, ""))
    ensures gen.kind.Condit? && !gen.direct ==>
      (Child(paths, p, f) <==> f == Frame(GenBlock(gen), gen.name, 0, "")
                               && exists n :: lib.eval.test(p, gen) == Some(n) && n != 0)
    ensures gen.kind.Else? && !gen.direct ==>
      (Child(paths, p, f) <==> f == Frame(GenBlock(gen), gen.name, 0, "") && lib.eval.test(p, gen) == Some(0))
  {
    hide IsTree;
    if !gen.kind.CaseItem? { BlockChild(lib, paths, roots, p, gen, f); }
    var test := lib.eval.test(p, gen);
    assert test.Some? ==> test == Some(test.value);
  }

  /** A directly nested block puts the blocks inside it under the container instead. */
  lemma NestedBlocks(lib: Library, paths: set<Path>, roots: seq<string>, p: Path, gen: Gen, inner: Gen)
    requires IsTree(lib, paths, roots) && p in paths && HasGen(lib, p, gen) && gen.Block? && gen.direct
    requires gen.kind.Condit? && lib.eval.test(p, gen).Some? && lib.eval.test(p, gen).value != 0
    requires inner in gen.nested && inner.Block? && inner.kind.NamedBlock?
    ensures Child(paths, p, Frame(GenBlock(inner), inner.name, 0, ""))
  {
    hide IsTree;
    var f := Frame(GenBlock(inner), inner.name, 0, "");
    TreeChild(lib, paths, roots, p, f);
    assert gen in GensOf(lib, p);
    assert Direct(lib, p, inner, f);
    assert Direct(lib, p, gen, f);
  }

  // ----- instances -----

  /** The instance can be made: the module is known, the instance has a name, and the path stays bounded. */
  predicate Makes(lib: Library, p: Path, gate: Gate)
  {
    gate.moduleName in lib.modules && gate.name != "" && Allowed(p, gate.moduleName, lib.limit)
  }

  predicate OnlyGate(lib: Library, p: Path, gate: Gate)
  {
    && HasGate(lib, p, gate)
    && forall g :: g in GatesOf(lib, p) && g.name == gate.name ==> g == gate
  }

  /** Main result: the instances of an array are exactly those numbered between its bounds, whichever way they run;
      of a gate that is no array there is exactly one. All or none, as the check allows. */
  lemma ArrayInstances(lib: Library, paths: set<Path>, roots: seq<string>, p: Path, gate: Gate, f: Frame)
    requires IsTree(lib, paths, roots) && p in paths && OnlyGate(lib, p, gate)
    requires f.kind.ModuleScope? && f.name == gate.name
    ensures gate.isArray && lib.eval.bounds(p, gate).Some? && InInt32(lib.eval.bounds(p, gate).value) ==>
      var b := lib.eval.bounds(p, gate).value;
      (Child(paths, p, f) <==>
         && Makes(lib, p, gate) && f == Frame(ModuleScope, gate.name, f.index, gate.moduleName)
         && (b.lsb <= f.index <= b.msb || b.msb <= f.index <= b.lsb))
    ensures !gate.isArray ==>
      (Child(paths, p, f) <==> Makes(lib, p, gate) && f == Frame(ModuleScope, gate.name, 0, gate.moduleName))
  {
    hide IsTree, Direct, AsInt32, Allowed;
    TreeChild(lib, paths, roots, p, f);
    assert gate in GatesOf(lib, p);
    NoBlockIsInstance(lib, p, f);
    var bounds := lib.eval.bounds(p, gate);
    if gate.isArray && bounds.Some? && InInt32(bounds.value) {
      forall idx: nat | idx < InstanceCount(lib, p, gate)
        ensures InstanceIndex(lib, p, gate, idx) == if bounds.value.lsb < bounds.value.msb then bounds.value.lsb + idx
                                                    else bounds.value.lsb - idx
      {
        Int32Law(bounds.value.lsb + idx);
        Int32Law(bounds.value.lsb - idx);
      }
      if f == Frame(ModuleScope, gate.name, f.index, gate.moduleName) {
        var lsb := bounds.value.lsb;
        var idx := if lsb < bounds.value.msb then f.index - lsb else lsb - f.index;
        if 0 <= idx < InstanceCount(lib, p, gate) { assert f == InstanceAt(lib, p, gate, idx); }
      }
    } else if !gate.isArray && Makes(lib, p, gate) {
      assert InstanceCount(lib, p, gate) == 1;
      assert InstanceAt(lib, p, gate, 0) == Frame(ModuleScope, gate.name, 0, gate.moduleName);
    }
  }

  predicate InInt32(b: Bounds)
  {
    -0x8000_0000 <= b.msb < 0x8000_0000 && -0x8000_0000 <= b.lsb < 0x8000_0000
  }

  lemma NoBlockIsInstance(lib: Library, p: Path, f: Frame)
    requires f.kind.ModuleScope?
    ensures forall gen :: !Direct(lib, p, gen, f)
  {
    forall gen ensures !Direct(lib, p, gen, f) { NotDirect(lib, p, gen, f); }
  }

  lemma {:induction false} NotDirect(lib: Library, p: Path, gen: Gen, f: Frame)
    requires f.kind.ModuleScope?
    ensures !Direct(lib, p, gen, f)
    decreases gen
  {
    match gen {
      case Case(items) =>
        forall k: nat | Takes(lib.eval, p, gen, k) ensures !BlockOrNested(lib, p, gen, items[k], f) {
          assert items[k] in items;
          forall g | g in items[k].nested ensures !Direct(lib, p, g, f) { NotDirect(lib, p, g, f); }
        }
      case Block(_, _, _, nested, _) =>
        forall g | g in nested ensures !Direct(lib, p, g, f) { NotDirect(lib, p, g, f); }
    }
  }
}
