/** The current export helpers (`ModuleDependenciesHelper` under
    `src/main/java`): which entries a module exports, the export closure over
    those exports, and the one-pass propagation of dependents' usage into the
    usage of exporting modules. */
module Helper {
  import opened Wrappers
  import opened ProjectModel
  import opened DependenciesFilter
  import IdentitySet
  import ModulesDeps
  import ExportClosure

  type EdgeSet = IdentitySet.LibOrModuleSet

  /** A module or library entry carrying the exported flag. */
  predicate Exported(e: OrderEntry) {
    (e.ModuleEntry? || e.LibraryEntry?) && e.exported
  }

  /** The export collector visitor on one entry: an exported module or
      library entry is added (through the removability gate), any other entry
      is skipped. */
  function CollectExport(s: EdgeSet, e: OrderEntry): EdgeSet {
    if Exported(e) then IdentitySet.AddEntry(s, e) else s
  }

  /** `isExportDependency(e)`: the collector, run on `e` alone, collects
      something; that is, `e` is exported, removable and has a target. */
  function IsExportDependency(e: OrderEntry): (r: bool)
    ensures r <==> Exported(e) && RemovableDependency(Some(e)) && (TargetModule(e).Some? || TargetLibrary(e).Some?)
  {
    var s := CollectExport(IdentitySet.Empty, e);
    assert TargetModule(e).Some? && Exported(e) && RemovableDependency(Some(e)) ==> TargetModule(e).value in s.modules;
    assert TargetLibrary(e).Some? && Exported(e) && RemovableDependency(Some(e)) ==> TargetLibrary(e).value in s.libs;
    !IdentitySet.IsEmpty(s)
  }

  /** The collector run over a sequence of entries (`processOrder`). */
  function CollectExports(s: EdgeSet, es: seq<OrderEntry>): (r: EdgeSet)
    ensures forall x :: x in r.modules <==>
      x in s.modules || exists e :: e in es && IsExportDependency(e) && TargetModule(e) == Some(x)
    ensures forall x :: x in r.libs <==>
      x in s.libs || exists e :: e in es && IsExportDependency(e) && TargetLibrary(e) == Some(x)
    decreases |es|
  {
    if es == [] then s
    else CollectExports(CollectExport(s, es[0]), es[1..])
  }

  /** `collectModuleExports(m)`: the targets of the exported, removable
      entries of `m`, and nothing else. */
  function Exports(p: Project, m: Module): (r: EdgeSet)
    ensures forall x :: x in r.modules <==>
      exists e :: e in EntriesOf(p, m) && IsExportDependency(e) && TargetModule(e) == Some(x)
    ensures forall x :: x in r.libs <==>
      exists e :: e in EntriesOf(p, m) && IsExportDependency(e) && TargetLibrary(e) == Some(x)
  {
    CollectExports(IdentitySet.Empty, EntriesOf(p, m))
  }

  /** The modules whose exports are non-empty. */
  function ExportingModules(p: Project): (r: set<Module>)
    ensures forall m :: m in r <==> !IdentitySet.IsEmpty(Exports(p, m))
  {
    set m | m in p.entries && !IdentitySet.IsEmpty(Exports(p, m))
  }

  /** `c` contains every dependent of each of its members with exports. */
  ghost predicate ClosedUnderExports(p: Project, c: set<Module>) {
    forall m, d :: m in c && !IdentitySet.IsEmpty(Exports(p, m)) && d in DependentsOf(p, m) ==> d in c
  }

  /** `includeExportDependencies(modules)`: every seed, closed under the
      dependents of members with exports, the least such set, and made only
      of seeds and listed dependents. */
  function IncludeExportDependencies(p: Project, seeds: seq<Module>): (r: set<Module>)
    ensures forall m :: m in seeds ==> m in r
    ensures ClosedUnderExports(p, r)
    ensures forall c :: (forall m :: m in seeds ==> m in c) && ClosedUnderExports(p, c) ==> r <= c
    ensures forall m :: m in r ==> m in seeds || m in ExportClosure.Listed(p)
  {
    var exporting := ExportingModules(p);
    assert forall c :: ClosedUnderExports(p, c) <==> ExportClosure.ClosedUnder(p, exporting, c);
    ExportClosure.Closure(p, exporting, seeds)
  }

  /** A selection none of whose modules exports anything is not expanded. */
  lemma NoExportsNoExpansion(p: Project, seeds: seq<Module>)
    requires forall m :: m in seeds ==> IdentitySet.IsEmpty(Exports(p, m))
    ensures IncludeExportDependencies(p, seeds) == set m | m in seeds
  {
    var c := set m | m in seeds;
    assert ClosedUnderExports(p, c);
  }

  /** The inner loop of the propagation: over the dependents `ds`, the union
      of each recorded usage set intersected with the exports `x`; dependents
      with no record are skipped. */
  function Gain(acc: EdgeSet, d: ModulesDeps.ModulesDependencies, ds: seq<Module>, x: EdgeSet): (r: EdgeSet)
    ensures forall y :: y in r.modules <==>
      y in acc.modules || (y in x.modules && exists k :: k in ds && y in ModulesDeps.Lookup(d, k).modules)
    ensures forall y :: y in r.libs <==>
      y in acc.libs || (y in x.libs && exists k :: k in ds && y in ModulesDeps.Lookup(d, k).libs)
    decreases |ds|
  {
    if ds == [] then acc
    else
      var rec := ModulesDeps.ForModule(d, ds[0]);
      if rec.None? then Gain(acc, d, ds[1..], x)
      else Gain(IdentitySet.AddAll(acc, IdentitySet.Intersect(rec.value, x)), d, ds[1..], x)
  }

  /** The gain of `m`: its dependents' recorded usage of its exports. */
  function GainOf(p: Project, d: ModulesDeps.ModulesDependencies, m: Module): (r: EdgeSet)
    ensures IdentitySet.Subset(r, Exports(p, m))
    ensures forall y :: y in r.modules <==>
      y in Exports(p, m).modules && exists k :: k in DependentsOf(p, m) && y in ModulesDeps.Lookup(d, k).modules
    ensures forall y :: y in r.libs <==>
      y in Exports(p, m).libs && exists k :: k in DependentsOf(p, m) && y in ModulesDeps.Lookup(d, k).libs
  {
    Gain(IdentitySet.Empty, d, DependentsOf(p, m), Exports(p, m))
  }

  /** One iteration of the propagation loop, for module `m`. */
  function PropagateStep(p: Project, d: ModulesDeps.ModulesDependencies, m: Module): (r: ModulesDeps.ModulesDependencies)
    ensures IdentitySet.IsEmpty(Exports(p, m)) ==> r == d
    ensures !IdentitySet.IsEmpty(Exports(p, m)) ==>
      ModulesDeps.Lookup(r, m) == IdentitySet.AddAll(ModulesDeps.Lookup(d, m), GainOf(p, d, m))
    ensures forall k :: k != m ==> (k in r.sets <==> k in d.sets) && (k in d.sets ==> r.sets[k] == d.sets[k])
    ensures ModulesDeps.Valid(d) ==> ModulesDeps.Valid(r)
  {
    var exports := Exports(p, m);
    if IdentitySet.IsEmpty(exports) then d
    else ModulesDeps.AddAll(d, m, GainOf(p, d, m))
  }

  /** `updateExportedDependenciesUsages(modules, deps)`: one pass over the
      module array in its order, each step seeing the additions of the
      earlier ones. Usage sets only grow, only by the module's own exports,
      and only for modules of the array that export something. */
  function UpdateExportedDependenciesUsages(p: Project, modules: seq<Module>, d: ModulesDeps.ModulesDependencies)
    : (r: ModulesDeps.ModulesDependencies)
    ensures forall k :: IdentitySet.Subset(ModulesDeps.Lookup(d, k), ModulesDeps.Lookup(r, k))
    ensures forall k :: IdentitySet.Subset(ModulesDeps.Lookup(r, k),
                                           IdentitySet.AddAll(ModulesDeps.Lookup(d, k), Exports(p, k)))
    ensures forall k :: k !in modules || IdentitySet.IsEmpty(Exports(p, k)) ==>
      (k in r.sets <==> k in d.sets) && (k in d.sets ==> r.sets[k] == d.sets[k])
    ensures ModulesDeps.Valid(d) ==> ModulesDeps.Valid(r)
    decreases |modules|
  {
    if modules == [] then d
    else
      var d' := PropagateStep(p, d, modules[0]);
      var r := UpdateExportedDependenciesUsages(p, modules[1..], d');
      StepWithinExports(p, d, modules[0]);
      assert forall k :: k in modules <==> k == modules[0] || k in modules[1..];
      forall k
        ensures IdentitySet.Subset(ModulesDeps.Lookup(r, k), IdentitySet.AddAll(ModulesDeps.Lookup(d, k), Exports(p, k)))
      {
        var e := Exports(p, k);
        assert IdentitySet.Subset(ModulesDeps.Lookup(r, k), IdentitySet.AddAll(ModulesDeps.Lookup(d', k), e));
        assert IdentitySet.Subset(ModulesDeps.Lookup(d', k), IdentitySet.AddAll(ModulesDeps.Lookup(d, k), e));
      }
      r
  }

  /** One step grows each usage set, by at most the module's exports. */
  lemma StepWithinExports(p: Project, d: ModulesDeps.ModulesDependencies, m: Module)
    ensures forall k :: IdentitySet.Subset(ModulesDeps.Lookup(d, k), ModulesDeps.Lookup(PropagateStep(p, d, m), k))
    ensures forall k :: IdentitySet.Subset(ModulesDeps.Lookup(PropagateStep(p, d, m), k),
                                           IdentitySet.AddAll(ModulesDeps.Lookup(d, k), Exports(p, k)))
  {
    var r := PropagateStep(p, d, m);
    forall k
      ensures IdentitySet.Subset(ModulesDeps.Lookup(d, k), ModulesDeps.Lookup(r, k))
      ensures IdentitySet.Subset(ModulesDeps.Lookup(r, k), IdentitySet.AddAll(ModulesDeps.Lookup(d, k), Exports(p, k)))
    {
      var e := Exports(p, k);
      if k == m && !IdentitySet.IsEmpty(e) {
        UnionWithin(ModulesDeps.Lookup(d, k), GainOf(p, d, m), e);
      } else {
        assert ModulesDeps.Lookup(r, k) == ModulesDeps.Lookup(d, k);
        UnionWithin(ModulesDeps.Lookup(d, k), IdentitySet.Empty, e);
        IdentitySet.UnionLaws(ModulesDeps.Lookup(d, k), IdentitySet.Empty);
      }
    }
  }

  /** Adding a part `g` of `e` to `a` stays within `a` plus `e`. */
  lemma UnionWithin(a: EdgeSet, g: EdgeSet, e: EdgeSet)
    requires IdentitySet.Subset(g, e)
    ensures IdentitySet.Subset(a, IdentitySet.AddAll(a, g))
    ensures IdentitySet.Subset(IdentitySet.AddAll(a, g), IdentitySet.AddAll(a, e))
  {
    var ag := IdentitySet.AddAll(a, g);
    var ae := IdentitySet.AddAll(a, e);
    assert forall x :: x in ag.modules ==> IdentitySet.ContainsModule(ag, Some(x));
    assert forall x :: x in ag.libs ==> IdentitySet.ContainsLibrary(ag, Some(x));
    assert forall x :: IdentitySet.ContainsModule(ae, Some(x)) ==> x in ae.modules;
    assert forall x :: IdentitySet.ContainsLibrary(ae, Some(x)) ==> x in ae.libs;
  }

  /** A three-module project for the order example below: `c` depends on
      `b`, `b` on `a`; `a` and `b` both export library `l`. */
  const ExampleA := Module(1, "a")
  const ExampleB := Module(2, "b")
  const ExampleC := Module(3, "c")
  const ExampleLib := Library(10, Some("l"))
  const ExampleProject := Project(
    map[ExampleA := [LibraryEntry(Some(ExampleLib), Compile, true)],
        ExampleB := [ModuleEntry(Some(ExampleA), Compile, false), LibraryEntry(Some(ExampleLib), Compile, true)],
        ExampleC := [ModuleEntry(Some(ExampleB), Compile, false)]],
    map[ExampleA := [ExampleB], ExampleB := [ExampleC]])
  /** Only `c` uses `l` directly. */
  const ExampleUsage := ModulesDeps.ModulesDependencies(map[ExampleC := IdentitySet.LibOrModuleSet({}, {ExampleLib})])

  /** In the example both `a` and `b` export `l`. */
  lemma ExampleExports()
    ensures ExampleLib in Exports(ExampleProject, ExampleA).libs
    ensures ExampleLib in Exports(ExampleProject, ExampleB).libs
  {
    assert LibraryEntry(Some(ExampleLib), Compile, true) in EntriesOf(ExampleProject, ExampleA);
    assert LibraryEntry(Some(ExampleLib), Compile, true) in EntriesOf(ExampleProject, ExampleB);
  }

  /** `a`'s only dependent is `b`, so `a` gains `l` iff `b` has it recorded. */
  lemma ExampleGainOfA(d: ModulesDeps.ModulesDependencies)
    ensures ExampleLib in GainOf(ExampleProject, d, ExampleA).libs <==> ExampleLib in ModulesDeps.Lookup(d, ExampleB).libs
  {
    ExampleExports();
    assert DependentsOf(ExampleProject, ExampleA) == [ExampleB];
  }

  /** `b` gains `l` from `c`'s direct usage. */
  lemma ExampleGainOfB()
    ensures ExampleLib in GainOf(ExampleProject, ExampleUsage, ExampleB).libs
  {
    ExampleExports();
    assert ExampleC in DependentsOf(ExampleProject, ExampleB);
    assert ExampleLib in ModulesDeps.Lookup(ExampleUsage, ExampleC).libs;
  }

  /** A two-module pass is two steps, the first module's step first. */
  lemma UpdateTwoSteps(p: Project, m1: Module, m2: Module, d: ModulesDeps.ModulesDependencies)
    ensures UpdateExportedDependenciesUsages(p, [m1, m2], d) == PropagateStep(p, PropagateStep(p, d, m1), m2)
  {
    assert [m1, m2][1..] == [m2];
    assert [m2][1..] == [];
  }

  /** A step records every library the module gains. */
  lemma StepRecordsGain(p: Project, d: ModulesDeps.ModulesDependencies, m: Module, l: Library)
    requires l in GainOf(p, d, m).libs
    ensures l in ModulesDeps.Lookup(PropagateStep(p, d, m), m).libs
  {
  }

  /** In the example, visiting `a` first: `b` has no record yet, so `a`
      gains nothing, and visiting `b` next does not touch `a`. */
  lemma ExampleExporterFirst()
    ensures ExampleLib !in ModulesDeps.Lookup(UpdateExportedDependenciesUsages(ExampleProject, [ExampleA, ExampleB], ExampleUsage), ExampleA).libs
  {
    var afterA := PropagateStep(ExampleProject, ExampleUsage, ExampleA);
    ExampleGainOfA(ExampleUsage);
    assert ExampleLib !in ModulesDeps.Lookup(afterA, ExampleA).libs;
    UpdateTwoSteps(ExampleProject, ExampleA, ExampleB, ExampleUsage);
  }

  /** In the example, visiting `b` first: `b` gains `l` from `c`, and then
      `a` gains it from `b`'s enlarged record. */
  lemma ExampleReExporterFirst()
    ensures ExampleLib in ModulesDeps.Lookup(UpdateExportedDependenciesUsages(ExampleProject, [ExampleB, ExampleA], ExampleUsage), ExampleA).libs
  {
    var afterB := PropagateStep(ExampleProject, ExampleUsage, ExampleB);
    ExampleGainOfB();
    StepRecordsGain(ExampleProject, ExampleUsage, ExampleB, ExampleLib);
    ExampleGainOfA(afterB);
    StepRecordsGain(ExampleProject, afterB, ExampleA, ExampleLib);
    UpdateTwoSteps(ExampleProject, ExampleB, ExampleA, ExampleUsage);
  }
}
