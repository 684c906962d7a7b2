/** Paths in the scope tree, innermost scope first, and how deep module instances can nest on them. */
module ScopePaths {

  datatype Gate = Gate(name: string, moduleName: string, isArray: bool)

  /** A case item has a number of expressions to match; one without any is the default. */
  datatype GenKind = Loop | Condit | Else | NamedBlock | CaseItem(tests: nat)

  /** A generate scheme: a block, or a choice between blocks. A directly nested block gets no scope of its own. */
  datatype Gen =
    | Block(kind: GenKind, name: string, gates: seq<Gate>, nested: seq<Gen>, direct: bool)
    | Case(items: seq<Gen>)

  /** A module instance, or the scope of a generate block. */
  datatype ScopeKind = ModuleScope | GenBlock(gen: Gen)

  /** A scope: what it is, its name in its parent with an index for arrays and loops, and for a module
      instance the module it is an instance of. */
  datatype Frame = Frame(kind: ScopeKind, name: string, index: int, moduleName: string)
  {
    predicate InstanceOf(m: string) { kind.ModuleScope? && moduleName == m }
  }

  type Path = seq<Frame>

  function Count(path: Path, m: string): nat
  {
    if |path| == 0 then 0 else (if path[0].InstanceOf(m) then 1 else 0) + Count(path[1..], m)
  }

  /** Instances of modules named in `names`. */
  function CountIn(path: Path, names: set<string>): nat
  {
    if |path| == 0 then 0
    else (if path[0].kind.ModuleScope? && path[0].moduleName in names then 1 else 0) + CountIn(path[1..], names)
  }

  predicate BlockBefore(path: Path, i: nat)
    requires i <= |path|
  {
    exists j :: 0 <= j < i && path[j].kind.GenBlock?
  }

  /** An instance of `m` may be put under the innermost scope: there is a generate block between it and every
      instance of `m` above, and there are at most `limit` of those. */
  predicate Allowed(path: Path, m: string, limit: nat)
  {
    && Count(path, m) <= limit
    && forall i :: 0 <= i < |path| && path[i].InstanceOf(m) ==> BlockBefore(path, i)
  }

  predicate BlockBetween(path: Path, i: nat, k: nat)
    requires k <= |path|
  {
    exists j :: i < j < k && path[j].kind.GenBlock?
  }

  /** Between any two instances of one module there is a generate block. */
  predicate Separated(path: Path)
  {
    forall i, k :: 0 <= i < k < |path| && path[i].kind.ModuleScope? && path[k].InstanceOf(path[i].moduleName) ==>
      BlockBetween(path, i, k)
  }

  /** What holds on every path of every scope tree the elaborator builds. */
  ghost predicate Bounded(path: Path, names: set<string>, limit: nat)
  {
    && (forall m :: Count(path, m) <= limit + 1)
    && Separated(path)
    && (forall i :: 0 <= i < |path| && path[i].kind.ModuleScope? ==> path[i].moduleName in names)
  }

  lemma ShiftedBlock(f: Frame, path: Path, i: nat, k: nat)
    requires i < k <= |path|
    ensures BlockBetween([f] + path, i + 1, k + 1) <==> BlockBetween(path, i, k)
  {
    var p := [f] + path;
    if BlockBetween(path, i, k) {
      var j :| i < j < k && path[j].kind.GenBlock?;
      assert p[j + 1].kind.GenBlock?;
    }
    if BlockBetween(p, i + 1, k + 1) {
      var j :| i + 1 < j < k + 1 && p[j].kind.GenBlock?;
      assert path[j - 1].kind.GenBlock?;
    }
  }

  lemma SeparatedGrows(f: Frame, path: Path)
    requires Separated(path)
    requires f.kind.ModuleScope? ==>
      forall k :: 0 <= k < |path| && path[k].InstanceOf(f.moduleName) ==> BlockBefore(path, k)
    ensures Separated([f] + path)
  {
    var p := [f] + path;
    forall i, k | 0 <= i < k < |p| && p[i].kind.ModuleScope? && p[k].InstanceOf(p[i].moduleName)
      ensures BlockBetween(p, i, k)
    {
      assert p[k] == path[k - 1];
      if i == 0 {
        assert BlockBefore(path, k - 1);
        var j :| 0 <= j < k - 1 && path[j].kind.GenBlock?;
        assert p[j + 1].kind.GenBlock?;
      } else {
        assert p[i] == path[i - 1];
        ShiftedBlock(f, path, i - 1, k - 1);
      }
    }
  }

  /** Main result: an allowed instance keeps the bounds. */
  lemma AllowedKeepsBounds(f: Frame, path: Path, names: set<string>, limit: nat)
    requires Bounded(path, names, limit) && f.kind.ModuleScope? && f.moduleName in names
      && Allowed(path, f.moduleName, limit)
    ensures Bounded([f] + path, names, limit)
  {
    hide Separated;
    SeparatedGrows(f, path);
    var p := [f] + path;
    assert p[1..] == path;
    forall m ensures Count(p, m) <= limit + 1 { assert Count(path, m) <= limit + 1; }
    assert forall i :: 1 <= i < |p| ==> p[i] == path[i - 1];
  }

  /** Main result: the check refuses nothing else: it allows an instance exactly when the path stays bounded. */
  lemma AllowedExactlyWhen(f: Frame, path: Path, names: set<string>, limit: nat)
    requires Bounded(path, names, limit) && f.kind.ModuleScope? && f.moduleName in names
    ensures Allowed(path, f.moduleName, limit) <==> Bounded([f] + path, names, limit)
  {
    var p := [f] + path;
    if Allowed(path, f.moduleName, limit) { AllowedKeepsBounds(f, path, names, limit); }
    if Bounded(p, names, limit) {
      assert p[1..] == path && Count(p, f.moduleName) == 1 + Count(path, f.moduleName);
      forall i | 0 <= i < |path| && path[i].InstanceOf(f.moduleName) ensures BlockBefore(path, i) {
        assert p[i + 1] == path[i] && BlockBetween(p, 0, i + 1);
        var j :| 0 < j < i + 1 && p[j].kind.GenBlock?;
        assert path[j - 1].kind.GenBlock?;
      }
    }
  }

  lemma BlockKeepsBounds(f: Frame, path: Path, names: set<string>, limit: nat)
    requires Bounded(path, names, limit) && f.kind.GenBlock?
    ensures Bounded([f] + path, names, limit)
  {
    hide Separated;
    SeparatedGrows(f, path);
    var p := [f] + path;
    assert p[1..] == path;
    forall m ensures Count(p, m) <= limit + 1 { assert Count(path, m) <= limit + 1; }
    assert forall i :: 1 <= i < |p| ==> p[i] == path[i - 1];
  }

  lemma {:induction false} CountInSplit(path: Path, names: set<string>, m: string)
    requires m in names
    ensures CountIn(path, names) == CountIn(path, names - {m}) + Count(path, m)
  {
    if |path| > 0 { CountInSplit(path[1..], names, m); }
  }

  lemma {:induction false} CountInNone(path: Path)
    ensures CountIn(path, {}) == 0
  {
    if |path| > 0 { CountInNone(path[1..]); }
  }

  /** Main result: on a bounded path, modules nest at most `limit + 1` deep for each module there is. */
  lemma {:induction false} DepthBound(path: Path, names: set<string>, limit: nat)
    requires forall m :: Count(path, m) <= limit + 1
    ensures CountIn(path, names) <= (limit + 1) * |names|
    decreases |names|
  {
    if names == {} {
      CountInNone(path);
    } else {
      var m :| m in names;
      CountInSplit(path, names, m);
      DepthBound(path, names - {m}, limit);
      assert |names| == |names - {m}| + 1;
      Distribute(limit + 1, |names - {m}|);
    }
  }

  lemma Distribute(a: nat, b: nat)
    ensures a * (b + 1) == a * b + a
  {
  }

  lemma {:induction false} AllCounted(path: Path, names: set<string>)
    requires forall i :: 0 <= i < |path| && path[i].kind.ModuleScope? ==> path[i].moduleName in names
    ensures CountIn(path, names) == ModuleDepth(path)
  {
    if |path| > 0 { AllCounted(path[1..], names); }
  }

  /** How many module instances a path goes through. */
  function ModuleDepth(path: Path): nat
  {
    if |path| == 0 then 0 else (if path[0].kind.ModuleScope? then 1 else 0) + ModuleDepth(path[1..])
  }

  /** How many more instances fit: what every instantiation uses up. */
  ghost function Remaining(path: Path, names: set<string>, limit: nat): nat
    requires Bounded(path, names, limit)
  {
    DepthBound(path, names, limit);
    (limit + 1) * |names| - CountIn(path, names)
  }

  lemma RemainingDrops(f: Frame, path: Path, names: set<string>, limit: nat)
    requires Bounded(path, names, limit) && Bounded([f] + path, names, limit)
    ensures f.kind.ModuleScope? ==> Remaining([f] + path, names, limit) == Remaining(path, names, limit) - 1
    ensures f.kind.GenBlock? ==> Remaining([f] + path, names, limit) == Remaining(path, names, limit)
  {
    assert ([f] + path)[1..] == path;
    if f.kind.ModuleScope? { assert ([f] + path)[0].moduleName in names; }
  }

  lemma BoundedDepth(path: Path, names: set<string>, limit: nat)
    requires Bounded(path, names, limit)
    ensures ModuleDepth(path) <= (limit + 1) * |names|
  {
    DepthBound(path, names, limit);
    AllCounted(path, names);
  }
}
