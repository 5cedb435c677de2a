/** The older export helpers (`ModuleDependenciesHelper` directly under
    `src/com`): name-keyed exports, the same export closure, and an in-place
    propagation that adds the dependents' usage straight into the exporting
    module's stored record, dereferencing records without a `null` check. */
module LegacyHelper {
  import opened Wrappers
  import opened ProjectModel
  import opened DependenciesFilter
  import NameSet
  import NamedModulesDeps
  import ExportClosure
  import Helper

  type Names = NameSet.NameSet
  type NamedDeps = NamedModulesDeps.ModulesDependencies

  /** The export collector visitor on one entry. */
  function CollectExport(s: Names, e: OrderEntry): Names {
    if Helper.Exported(e) then NameSet.AddEntry(s, e) else s
  }

  /** The collector run over a sequence of entries (`processOrder`). */
  function CollectExports(s: Names, es: seq<OrderEntry>): (r: Names)
    ensures forall x :: x in r.modules <==>
      x in s.modules || exists e :: e in es && Helper.Exported(e) && RemovableDependency(Some(e)) && NameSet.ModuleKey(TargetModule(e)) == Some(x)
    ensures forall x :: x in r.libs <==>
      x in s.libs || exists e :: e in es && Helper.Exported(e) && RemovableDependency(Some(e)) && NameSet.LibraryKey(TargetLibrary(e)) == Some(x)
    decreases |es|
  {
    if es == [] then s
    else CollectExports(CollectExport(s, es[0]), es[1..])
  }

  /** `collectModuleExports(m)`: the names of the exported, removable targets
      of `m`'s entries (nameless libraries drop out). */
  function Exports(p: Project, m: Module): (r: Names)
    ensures forall x :: x in r.modules <==>
      exists e :: e in EntriesOf(p, m) && Helper.Exported(e) && RemovableDependency(Some(e)) && NameSet.ModuleKey(TargetModule(e)) == Some(x)
    ensures forall x :: x in r.libs <==>
      exists e :: e in EntriesOf(p, m) && Helper.Exported(e) && RemovableDependency(Some(e)) && NameSet.LibraryKey(TargetLibrary(e)) == Some(x)
  {
    CollectExports(NameSet.Empty, EntriesOf(p, m))
  }

  /** The modules whose exports are non-empty. */
  function ExportingModules(p: Project): (r: set<Module>)
    ensures forall m :: m in r <==> !NameSet.IsEmpty(Exports(p, m))
  {
    set m | m in p.entries && !NameSet.IsEmpty(Exports(p, m))
  }

  /** `c` contains every dependent of each of its members with exports. */
  ghost predicate ClosedUnderExports(p: Project, c: set<Module>) {
    forall m, d :: m in c && !NameSet.IsEmpty(Exports(p, m)) && d in DependentsOf(p, m) ==> d in c
  }

  /** `includeExportDependencies(modules)`: the same closure as the current
      helper, over these exports. */
  function IncludeExportDependencies(p: Project, seeds: seq<Module>): (r: set<Module>)
    ensures forall m :: m in seeds ==> m in r
    ensures ClosedUnderExports(p, r)
    ensures forall c :: (forall m :: m in seeds ==> m in c) && ClosedUnderExports(p, c) ==> r <= c
    ensures forall m :: m in r ==> m in seeds || m in ExportClosure.Listed(p)
  {
    var exporting := ExportingModules(p);
    assert forall c :: ClosedUnderExports(p, c) <==> ExportClosure.ClosedUnder(p, exporting, c);
    ExportClosure.Closure(p, exporting, seeds)
  }

  /** The dependents loop for one exporting module, writing into the record
      stored under `name`: each dependent's record, intersected with the
      exports `x`, is added to it. A missing record, the module's own or a
      dependent's, is dereferenced and the pass aborts. A dependent sharing
      the module's name reads the record as already enlarged. */
  function Absorb(d: NamedDeps, name: string, ds: seq<Module>, x: Names): (r: Result<NamedDeps, Crash>)
    ensures r.Success? <==> ds == [] || (name in d.sets && forall k :: k in ds ==> k.name in d.sets)
    ensures r.Success? ==> r.value.sets.Keys == d.sets.Keys
    ensures r.Success? ==> forall n :: n in d.sets && n != name ==> r.value.sets[n] == d.sets[n]
    ensures r.Success? ==> forall y :: y in NamedModulesDeps.Lookup(r.value, name).modules <==>
      y in NamedModulesDeps.Lookup(d, name).modules ||
      (y in x.modules && exists k :: k in ds && y in NamedModulesDeps.Lookup(d, k.name).modules)
    ensures r.Success? ==> forall y :: y in NamedModulesDeps.Lookup(r.value, name).libs <==>
      y in NamedModulesDeps.Lookup(d, name).libs ||
      (y in x.libs && exists k :: k in ds && y in NamedModulesDeps.Lookup(d, k.name).libs)
    decreases |ds|
  {
    if ds == [] then Success(d)
    else if ds[0].name !in d.sets || name !in d.sets then Failure(NullPointerException)
    else
      var grown := NameSet.AddAll(d.sets[name], NameSet.Intersect(d.sets[ds[0].name], x));
      var d' := NamedModulesDeps.ModulesDependencies(d.sets[name := grown]);
      var r := Absorb(d', name, ds[1..], x);
      if r.Success? then
        AbsorbStep(d, d', name, ds, x, r.value);
        r
      else r
  }

  /** The inductive step of `Absorb`: after the first dependent is absorbed,
      the rest reads either an unchanged record or the enlarged own one. */
  lemma AbsorbStep(d: NamedDeps, d': NamedDeps, name: string, ds: seq<Module>, x: Names, r: NamedDeps)
    requires ds != [] && name in d.sets && ds[0].name in d.sets
    requires d'.sets == d.sets[name := NameSet.AddAll(d.sets[name], NameSet.Intersect(d.sets[ds[0].name], x))]
    requires forall y :: y in NamedModulesDeps.Lookup(r, name).modules <==>
      y in NamedModulesDeps.Lookup(d', name).modules ||
      (y in x.modules && exists k :: k in ds[1..] && y in NamedModulesDeps.Lookup(d', k.name).modules)
    requires forall y :: y in NamedModulesDeps.Lookup(r, name).libs <==>
      y in NamedModulesDeps.Lookup(d', name).libs ||
      (y in x.libs && exists k :: k in ds[1..] && y in NamedModulesDeps.Lookup(d', k.name).libs)
    ensures forall y :: y in NamedModulesDeps.Lookup(r, name).modules <==>
      y in NamedModulesDeps.Lookup(d, name).modules ||
      (y in x.modules && exists k :: k in ds && y in NamedModulesDeps.Lookup(d, k.name).modules)
    ensures forall y :: y in NamedModulesDeps.Lookup(r, name).libs <==>
      y in NamedModulesDeps.Lookup(d, name).libs ||
      (y in x.libs && exists k :: k in ds && y in NamedModulesDeps.Lookup(d, k.name).libs)
  {
    forall y
      ensures y in NamedModulesDeps.Lookup(r, name).modules <==>
        y in NamedModulesDeps.Lookup(d, name).modules ||
        (y in x.modules && exists k :: k in ds && y in NamedModulesDeps.Lookup(d, k.name).modules)
    {
      if y in x.modules && (exists k :: k in ds && y in NamedModulesDeps.Lookup(d, k.name).modules) {
        var k :| k in ds && y in NamedModulesDeps.Lookup(d, k.name).modules;
        if k != ds[0] && k.name != name {
          assert k in ds[1..];
        }
      }
      if y in x.modules && (exists k :: k in ds[1..] && y in NamedModulesDeps.Lookup(d', k.name).modules) {
        var k :| k in ds[1..] && y in NamedModulesDeps.Lookup(d', k.name).modules;
        assert k in ds;
      }
    }
    forall y
      ensures y in NamedModulesDeps.Lookup(r, name).libs <==>
        y in NamedModulesDeps.Lookup(d, name).libs ||
        (y in x.libs && exists k :: k in ds && y in NamedModulesDeps.Lookup(d, k.name).libs)
    {
      if y in x.libs && (exists k :: k in ds && y in NamedModulesDeps.Lookup(d, k.name).libs) {
        var k :| k in ds && y in NamedModulesDeps.Lookup(d, k.name).libs;
        if k != ds[0] && k.name != name {
          assert k in ds[1..];
        }
      }
      if y in x.libs && (exists k :: k in ds[1..] && y in NamedModulesDeps.Lookup(d', k.name).libs) {
        var k :| k in ds[1..] && y in NamedModulesDeps.Lookup(d', k.name).libs;
        assert k in ds;
      }
    }
  }

  /** Whether the step for `m` can run without dereferencing a missing
      record, given the names that have records: `m` exports nothing, has no
      dependents, or it and all its dependents are recorded. */
  predicate StepSafe(p: Project, keys: set<string>, m: Module) {
    NameSet.IsEmpty(Exports(p, m)) || DependentsOf(p, m) == []
    || (m.name in keys && forall k :: k in DependentsOf(p, m) ==> k.name in keys)
  }

  /** Some module of the pass named `n` exports something. */
  predicate ExportsUnderName(p: Project, modules: seq<Module>, n: string) {
    exists m :: m in modules && m.name == n && !NameSet.IsEmpty(Exports(p, m))
  }

  /** One iteration of the older propagation loop, for module `m`. */
  function Step(p: Project, d: NamedDeps, m: Module): (r: Result<NamedDeps, Crash>)
    ensures r.Success? <==> StepSafe(p, d.sets.Keys, m)
    ensures r.Success? ==> r.value.sets.Keys == d.sets.Keys
    ensures r.Success? && NameSet.IsEmpty(Exports(p, m)) ==> r.value == d
    ensures r.Success? ==> forall n :: n in d.sets && n != m.name ==> r.value.sets[n] == d.sets[n]
    ensures r.Success? ==> forall y :: y in NamedModulesDeps.Lookup(r.value, m.name).libs <==>
      y in NamedModulesDeps.Lookup(d, m.name).libs ||
      (y in Exports(p, m).libs && exists k :: k in DependentsOf(p, m) && y in NamedModulesDeps.Lookup(d, k.name).libs)
    ensures r.Success? ==> forall y :: y in NamedModulesDeps.Lookup(r.value, m.name).modules <==>
      y in NamedModulesDeps.Lookup(d, m.name).modules ||
      (y in Exports(p, m).modules && exists k :: k in DependentsOf(p, m) && y in NamedModulesDeps.Lookup(d, k.name).modules)
  {
    var x := Exports(p, m);
    if NameSet.IsEmpty(x) then Success(d)
    else Absorb(d, m.name, DependentsOf(p, m), x)
  }

  /** `updateExportedDependenciesUsages(modules, deps)` of the older helper:
      one in-place pass in array order that aborts at the first step whose
      records are missing. It succeeds exactly when every step is safe on
      the initial keys (no step adds a key); then records only grow, each by
      exports of modules of that name in the pass, and names with no
      exporting module in the pass keep their records. */
  function UpdateExportedDependenciesUsages(p: Project, modules: seq<Module>, d: NamedDeps): (r: Result<NamedDeps, Crash>)
    ensures r.Success? <==> forall m :: m in modules ==> StepSafe(p, d.sets.Keys, m)
    ensures r.Success? ==> r.value.sets.Keys == d.sets.Keys
    ensures r.Success? ==> forall n :: NameSet.Subset(NamedModulesDeps.Lookup(d, n), NamedModulesDeps.Lookup(r.value, n))
    ensures r.Success? ==> forall n, y :: y in NamedModulesDeps.Lookup(r.value, n).libs ==>
      y in NamedModulesDeps.Lookup(d, n).libs || exists m :: m in modules && m.name == n && y in Exports(p, m).libs
    ensures r.Success? ==> forall n, y :: y in NamedModulesDeps.Lookup(r.value, n).modules ==>
      y in NamedModulesDeps.Lookup(d, n).modules || exists m :: m in modules && m.name == n && y in Exports(p, m).modules
    ensures r.Success? ==> forall n :: !ExportsUnderName(p, modules, n) && n in d.sets ==> r.value.sets[n] == d.sets[n]
    decreases |modules|
  {
    if modules == [] then Success(d)
    else
      match Step(p, d, modules[0])
      case Failure(e) => Failure(e)
      case Success(d') =>
        var r := UpdateExportedDependenciesUsages(p, modules[1..], d');
        assert forall m :: m in modules <==> m == modules[0] || m in modules[1..];
        r
  }

  /** Only `c` has a usage record, naming library `l`. */
  const ExampleUsage: NamedDeps := NamedModulesDeps.ModulesDependencies(map["c" := NameSet.NameSet({}, {"l"})])

  /** Also `b` has a (non-empty) record, naming module `a`. */
  const ExampleRecordedUsage: NamedDeps :=
    NamedModulesDeps.ModulesDependencies(map["b" := NameSet.NameSet({"a"}, {}), "c" := NameSet.NameSet({}, {"l"})])

  /** In the example project `b` exports `l` and has dependent `c`. */
  lemma ExampleExportsOfB()
    ensures "l" in Exports(Helper.ExampleProject, Helper.ExampleB).libs
    ensures DependentsOf(Helper.ExampleProject, Helper.ExampleB) == [Helper.ExampleC]
  {
    assert LibraryEntry(Some(Helper.ExampleLib), Compile, true) in EntriesOf(Helper.ExampleProject, Helper.ExampleB);
  }

  /** Propagating into `b`, which has no record of its own, aborts with a
      null dereference; once `b` has a record, `b` gains `l` from `c`. */
  lemma ExampleMissingRecordCrashes()
    ensures UpdateExportedDependenciesUsages(Helper.ExampleProject, [Helper.ExampleB], ExampleUsage).Failure?
    ensures var r := UpdateExportedDependenciesUsages(Helper.ExampleProject, [Helper.ExampleB], ExampleRecordedUsage);
      r.Success? && "l" in NamedModulesDeps.Lookup(r.value, "b").libs
  {
    ExampleExportsOfB();
    assert !StepSafe(Helper.ExampleProject, ExampleUsage.sets.Keys, Helper.ExampleB);
    assert StepSafe(Helper.ExampleProject, ExampleRecordedUsage.sets.Keys, Helper.ExampleB);
    var r := Step(Helper.ExampleProject, ExampleRecordedUsage, Helper.ExampleB);
    assert "l" in NamedModulesDeps.Lookup(ExampleRecordedUsage, Helper.ExampleC.name).libs;
    assert "l" in NamedModulesDeps.Lookup(r.value, "b").libs;
    assert [Helper.ExampleB][1..] == [];
  }
}
