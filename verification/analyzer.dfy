/** The analysis pipeline (`ModuleDependenciesAnalyzer` with the two
    `AnalyzeStrategies`): expand the selected modules, aggregate the usage
    each module's scan found, propagate usage through exports, then propose
    for removal every supported, removable entry whose target is unused. */
module Analyzer {
  import opened Wrappers
  import opened ProjectModel
  import opened DependenciesFilter
  import IdentitySet
  import ModulesDeps
  import ExportClosure
  import Helper

  type EdgeSet = IdentitySet.LibOrModuleSet
  type Deps = ModulesDeps.ModulesDependencies

  /** The two strategies of `AnalyzeStrategies`. */
  datatype Strategy = WithExportDependencies | SkipExportDependencies

  /** `isSupportedDependency(e)`: everything with exports taken into
      account; otherwise everything but an export dependency. */
  function IsSupportedDependency(s: Strategy, e: OrderEntry): (r: bool)
    ensures s.WithExportDependencies? ==> r
    ensures s.SkipExportDependencies? ==>
      (r <==> !(Helper.Exported(e) && RemovableDependency(Some(e)) && (TargetModule(e).Some? || TargetLibrary(e).Some?)))
  {
    match s
    case WithExportDependencies => true
    case SkipExportDependencies => !Helper.IsExportDependency(e)
  }

  /** `xs` lists the members of `c`, each once (what `toArray` of a hash set
      yields, in an order the model does not fix). */
  predicate Enumerates(xs: seq<Module>, c: set<Module>) {
    (set m | m in xs) == c && forall i, j :: 0 <= i < j < |xs| ==> xs[i] != xs[j]
  }

  /** `collectAllModules(initial)`: the export closure of the selection,
      listed in the order `enumeration` gives, or the selection itself. */
  function CollectAllModules(s: Strategy, p: Project, initial: seq<Module>, enumeration: seq<Module>): (r: seq<Module>)
    requires s.WithExportDependencies? ==> Enumerates(enumeration, Helper.IncludeExportDependencies(p, initial))
    ensures s.SkipExportDependencies? ==> r == initial
    ensures s.WithExportDependencies? ==> Enumerates(r, Helper.IncludeExportDependencies(p, initial))
    ensures forall m :: m in initial ==> m in r
    ensures forall m :: m in r ==> m in initial || m in ExportClosure.Listed(p)
  {
    match s
    case WithExportDependencies => enumeration
    case SkipExportDependencies => initial
  }

  /** `updateDetectedDependencies(modules, deps)`: the export propagation,
      or nothing. Usage only grows, and only by a module's own exports. */
  function UpdateDetectedDependencies(s: Strategy, p: Project, modules: seq<Module>, d: Deps): (r: Deps)
    ensures s.SkipExportDependencies? ==> r == d
    ensures forall k :: IdentitySet.Subset(ModulesDeps.Lookup(d, k), ModulesDeps.Lookup(r, k))
    ensures forall k :: IdentitySet.Subset(ModulesDeps.Lookup(r, k), IdentitySet.AddAll(ModulesDeps.Lookup(d, k), Helper.Exports(p, k)))
    ensures forall k :: IdentitySet.IsEmpty(Helper.Exports(p, k)) ==> (k in r.sets <==> k in d.sets)
    ensures ModulesDeps.Valid(d) ==> ModulesDeps.Valid(r)
  {
    match s
    case WithExportDependencies => Helper.UpdateExportedDependenciesUsages(p, modules, d)
    case SkipExportDependencies => d
  }

  /** What the usage scan of one module found (the scan itself walks source
      files and resolves references, and is a parameter here). */
  function ScanOf(scan: map<Module, EdgeSet>, m: Module): EdgeSet {
    if m in scan then scan[m] else IdentitySet.Empty
  }

  /** `collectionActualModulesDependencies(modules)`: each module's scan
      result is added under it with `addAll`, which drops an empty result,
      so a module whose scan found nothing gets no record at all. */
  function CollectActualDependencies(acc: Deps, modules: seq<Module>, scan: map<Module, EdgeSet>): (r: Deps)
    ensures forall m, x :: x in ModulesDeps.Lookup(r, m).modules <==>
      x in ModulesDeps.Lookup(acc, m).modules || (m in modules && x in ScanOf(scan, m).modules)
    ensures forall m, x :: x in ModulesDeps.Lookup(r, m).libs <==>
      x in ModulesDeps.Lookup(acc, m).libs || (m in modules && x in ScanOf(scan, m).libs)
    ensures forall m :: m in r.sets <==> m in acc.sets || (m in modules && !IdentitySet.IsEmpty(ScanOf(scan, m)))
    ensures ModulesDeps.Valid(acc) ==> ModulesDeps.Valid(r)
    decreases |modules|
  {
    if modules == [] then acc
    else
      var r := CollectActualDependencies(ModulesDeps.AddAll(acc, modules[0], ScanOf(scan, modules[0])), modules[1..], scan);
      assert forall m :: m in modules <==> m == modules[0] || m in modules[1..];
      r
  }

  /** `x` is the target of a supported, removable module entry among `es`
      and is not in the usage `used`. */
  predicate ModuleCandidate(s: Strategy, es: seq<OrderEntry>, used: EdgeSet, x: Module) {
    exists e :: e in es && IsSupportedDependency(s, e) && RemovableDependency(Some(e)) && TargetModule(e) == Some(x) && x !in used.modules
  }

  /** The same for library entries. */
  predicate LibraryCandidate(s: Strategy, es: seq<OrderEntry>, used: EdgeSet, x: Library) {
    exists e :: e in es && IsSupportedDependency(s, e) && RemovableDependency(Some(e)) && TargetLibrary(e) == Some(x) && x !in used.libs
  }

  /** The loop over one module's entries, reading an absent usage record as
      "nothing used": unsupported entries and used targets are skipped, the
      rest go through the removability gate. The result is exactly the
      candidates, so it never meets the usage. */
  function Removables(s: Strategy, acc: EdgeSet, es: seq<OrderEntry>, used: EdgeSet): (r: EdgeSet)
    ensures forall x :: x in r.modules <==> x in acc.modules || ModuleCandidate(s, es, used, x)
    ensures forall x :: x in r.libs <==> x in acc.libs || LibraryCandidate(s, es, used, x)
    ensures (forall e :: e in es ==> !IsSupportedDependency(s, e)) ==> r == acc
    decreases |es|
  {
    if es == [] then acc
    else
      var e := es[0];
      var acc' := if !IsSupportedDependency(s, e) || IdentitySet.Contains(used, Some(e)) then acc
                  else IdentitySet.AddEntry(acc, e);
      var r := Removables(s, acc', es[1..], used);
      assert forall e' :: e' in es <==> e' == e || e' in es[1..];
      r
  }

  /** The same loop as written: the usage record is dereferenced at the
      first supported entry, so a missing record aborts the analysis unless
      the module has no supported entry. With a record it agrees with
      `Removables`. */
  function RemovablesAsWritten(s: Strategy, acc: EdgeSet, es: seq<OrderEntry>, actual: Option<EdgeSet>): (r: Result<EdgeSet, Crash>)
    ensures r.Failure? <==> actual.None? && exists e :: e in es && IsSupportedDependency(s, e)
    ensures r.Success? ==> r.value == Removables(s, acc, es, actual.GetOr(IdentitySet.Empty))
    decreases |es|
  {
    if es == [] then Success(acc)
    else
      var e := es[0];
      assert forall e' :: e' in es <==> e' == e || e' in es[1..];
      if !IsSupportedDependency(s, e) then RemovablesAsWritten(s, acc, es[1..], actual)
      else if actual.None? then Failure(NullPointerException)
      else if IdentitySet.Contains(actual.value, Some(e)) then RemovablesAsWritten(s, acc, es[1..], actual)
      else RemovablesAsWritten(s, IdentitySet.AddEntry(acc, e), es[1..], actual)
  }

  /** The loop over all modules collecting each one's removables under it.
      The program's `addAllRemoves(module, set)` is modelled by the current
      map's `addAll`, so modules with nothing to remove get no record. */
  function PlanRemovals(s: Strategy, p: Project, modules: seq<Module>, usage: Deps, acc: Deps): (r: Deps)
    ensures forall m, x :: x in ModulesDeps.Lookup(r, m).modules <==>
      x in ModulesDeps.Lookup(acc, m).modules || (m in modules && ModuleCandidate(s, EntriesOf(p, m), ModulesDeps.Lookup(usage, m), x))
    ensures forall m, x :: x in ModulesDeps.Lookup(r, m).libs <==>
      x in ModulesDeps.Lookup(acc, m).libs || (m in modules && LibraryCandidate(s, EntriesOf(p, m), ModulesDeps.Lookup(usage, m), x))
    ensures forall m :: m in r.sets ==> m in acc.sets || m in modules
    ensures ModulesDeps.Valid(acc) ==> ModulesDeps.Valid(r)
    decreases |modules|
  {
    if modules == [] then acc
    else
      var m := modules[0];
      var toRemove := Removables(s, IdentitySet.Empty, EntriesOf(p, m), ModulesDeps.Lookup(usage, m));
      var r := PlanRemovals(s, p, modules[1..], usage, ModulesDeps.AddAll(acc, m, toRemove));
      assert forall k :: k in modules <==> k == m || k in modules[1..];
      r
  }

  /** The planning of one module aborts: it has no usage record, yet an
      entry the strategy supports. */
  predicate Crashes(s: Strategy, p: Project, usage: Deps, m: Module) {
    ModulesDeps.ForModule(usage, m).None? && exists e :: e in EntriesOf(p, m) && IsSupportedDependency(s, e)
  }

  /** The module loop as written, dereferencing `forModule`. It aborts
      exactly when some module's planning does; otherwise it agrees with
      `PlanRemovals`. */
  function PlanRemovalsAsWritten(s: Strategy, p: Project, modules: seq<Module>, usage: Deps, acc: Deps): (r: Result<Deps, Crash>)
    ensures r.Failure? <==> exists m :: m in modules && Crashes(s, p, usage, m)
    ensures r.Success? ==> r.value == PlanRemovals(s, p, modules, usage, acc)
    decreases |modules|
  {
    if modules == [] then Success(acc)
    else
      var m := modules[0];
      assert forall k :: k in modules <==> k == m || k in modules[1..];
      var t := RemovablesAsWritten(s, IdentitySet.Empty, EntriesOf(p, m), ModulesDeps.ForModule(usage, m));
      if t.Failure? then
        assert Crashes(s, p, usage, m);
        Failure(t.error)
      else
        assert t.value == Removables(s, IdentitySet.Empty, EntriesOf(p, m), ModulesDeps.Lookup(usage, m));
        PlanRemovalsAsWritten(s, p, modules[1..], usage, ModulesDeps.AddAll(acc, m, t.value))
  }

  /** The usage the planner reads: the scan results of the expanded modules,
      aggregated and then propagated by the strategy. It holds every scanned
      use, adds only a module's own exports, has no empty record, and a
      module without exports has a record iff its scan found something. */
  function Usage(s: Strategy, p: Project, all: seq<Module>, scan: map<Module, EdgeSet>): (r: Deps)
    ensures forall m, x :: m in all && x in ScanOf(scan, m).modules ==> x in ModulesDeps.Lookup(r, m).modules
    ensures forall m, x :: m in all && x in ScanOf(scan, m).libs ==> x in ModulesDeps.Lookup(r, m).libs
    ensures forall m, x :: x in ModulesDeps.Lookup(r, m).modules ==>
      (m in all && x in ScanOf(scan, m).modules) || x in Helper.Exports(p, m).modules
    ensures forall m, x :: x in ModulesDeps.Lookup(r, m).libs ==>
      (m in all && x in ScanOf(scan, m).libs) || x in Helper.Exports(p, m).libs
    ensures s.SkipExportDependencies? ==> forall m, x ::
      x in ModulesDeps.Lookup(r, m).modules <==> m in all && x in ScanOf(scan, m).modules
    ensures s.SkipExportDependencies? ==> forall m, y ::
      y in ModulesDeps.Lookup(r, m).libs <==> m in all && y in ScanOf(scan, m).libs
    ensures forall m :: IdentitySet.IsEmpty(Helper.Exports(p, m)) ==>
      (m in r.sets <==> m in all && !IdentitySet.IsEmpty(ScanOf(scan, m)))
    ensures ModulesDeps.Valid(r)
  {
    var scanned := CollectActualDependencies(ModulesDeps.Empty, all, scan);
    var r := UpdateDetectedDependencies(s, p, all, scanned);
    forall m, x | x in ModulesDeps.Lookup(r, m).modules
      ensures (m in all && x in ScanOf(scan, m).modules) || x in Helper.Exports(p, m).modules
    {
      assert x in IdentitySet.AddAll(ModulesDeps.Lookup(scanned, m), Helper.Exports(p, m)).modules;
    }
    forall m, x | x in ModulesDeps.Lookup(r, m).libs
      ensures (m in all && x in ScanOf(scan, m).libs) || x in Helper.Exports(p, m).libs
    {
      assert x in IdentitySet.AddAll(ModulesDeps.Lookup(scanned, m), Helper.Exports(p, m)).libs;
    }
    r
  }

  /** `processModulesDependencies(modules)` with an absent usage record read
      as "nothing used". Every proposal is a supported, removable entry of
      its module whose target the scan did not find used; every such entry
      of an expanded module is proposed unless it is one of the module's own
      exports (which the propagation may have marked used); under
      `SkipExportDependencies` the proposals are exactly those entries. No
      record is empty and only expanded modules get one. */
  function ProcessModulesDependencies(s: Strategy, p: Project, initial: seq<Module>, enumeration: seq<Module>,
                                      scan: map<Module, EdgeSet>): (r: Deps)
    requires s.WithExportDependencies? ==> Enumerates(enumeration, Helper.IncludeExportDependencies(p, initial))
    ensures ModulesDeps.Valid(r)
    ensures forall m :: m in r.sets ==> m in CollectAllModules(s, p, initial, enumeration)
    ensures forall m, x :: x in ModulesDeps.Lookup(r, m).modules ==> ModuleCandidate(s, EntriesOf(p, m), ScanOf(scan, m), x)
    ensures forall m, x :: x in ModulesDeps.Lookup(r, m).libs ==> LibraryCandidate(s, EntriesOf(p, m), ScanOf(scan, m), x)
    ensures forall m, x ::
      (m in CollectAllModules(s, p, initial, enumeration) && x !in Helper.Exports(p, m).modules && ModuleCandidate(s, EntriesOf(p, m), ScanOf(scan, m), x))
      ==> x in ModulesDeps.Lookup(r, m).modules
    ensures forall m, x ::
      (m in CollectAllModules(s, p, initial, enumeration) && x !in Helper.Exports(p, m).libs && LibraryCandidate(s, EntriesOf(p, m), ScanOf(scan, m), x))
      ==> x in ModulesDeps.Lookup(r, m).libs
    ensures s.SkipExportDependencies? ==> forall m, x :: m in initial ==>
      (x in ModulesDeps.Lookup(r, m).modules <==> ModuleCandidate(s, EntriesOf(p, m), ScanOf(scan, m), x))
    ensures s.SkipExportDependencies? ==> forall m, y :: m in initial ==>
      (y in ModulesDeps.Lookup(r, m).libs <==> LibraryCandidate(s, EntriesOf(p, m), ScanOf(scan, m), y))
  {
    var all := CollectAllModules(s, p, initial, enumeration);
    var usage := Usage(s, p, all, scan);
    var r := PlanRemovals(s, p, all, usage, ModulesDeps.Empty);
    PlanSound(s, p, all, scan, usage, r);
    PlanComplete(s, p, all, scan, usage, r);
    if s.SkipExportDependencies? then
      PlanExactWithoutExports(s, p, all, scan, usage, r);
      r
    else r
  }

  /** A candidate against usage `a` stays one against any usage `b` that
      has `x` only where `a` has it. */
  lemma ModuleCandidateAntitone(s: Strategy, es: seq<OrderEntry>, a: EdgeSet, b: EdgeSet, x: Module)
    requires x in b.modules ==> x in a.modules
    ensures ModuleCandidate(s, es, a, x) ==> ModuleCandidate(s, es, b, x)
  {
  }

  /** The same for library candidates. */
  lemma LibraryCandidateAntitone(s: Strategy, es: seq<OrderEntry>, a: EdgeSet, b: EdgeSet, x: Library)
    requires x in b.libs ==> x in a.libs
    ensures LibraryCandidate(s, es, a, x) ==> LibraryCandidate(s, es, b, x)
  {
  }

  /** Every proposal is a candidate against the scan alone. */
  lemma PlanSound(s: Strategy, p: Project, all: seq<Module>, scan: map<Module, EdgeSet>, usage: Deps, r: Deps)
    requires usage == Usage(s, p, all, scan)
    requires r == PlanRemovals(s, p, all, usage, ModulesDeps.Empty)
    ensures forall m, x :: x in ModulesDeps.Lookup(r, m).modules ==> ModuleCandidate(s, EntriesOf(p, m), ScanOf(scan, m), x)
    ensures forall m, y :: y in ModulesDeps.Lookup(r, m).libs ==> LibraryCandidate(s, EntriesOf(p, m), ScanOf(scan, m), y)
  {
    forall m, x | x in ModulesDeps.Lookup(r, m).modules
      ensures ModuleCandidate(s, EntriesOf(p, m), ScanOf(scan, m), x)
    {
      ModuleCandidateAntitone(s, EntriesOf(p, m), ModulesDeps.Lookup(usage, m), ScanOf(scan, m), x);
    }
    forall m, y | y in ModulesDeps.Lookup(r, m).libs
      ensures LibraryCandidate(s, EntriesOf(p, m), ScanOf(scan, m), y)
    {
      LibraryCandidateAntitone(s, EntriesOf(p, m), ModulesDeps.Lookup(usage, m), ScanOf(scan, m), y);
    }
  }

  /** Every candidate against the scan that is not one of its module's own
      exports is proposed. */
  lemma PlanComplete(s: Strategy, p: Project, all: seq<Module>, scan: map<Module, EdgeSet>, usage: Deps, r: Deps)
    requires usage == Usage(s, p, all, scan)
    requires r == PlanRemovals(s, p, all, usage, ModulesDeps.Empty)
    ensures forall m, x ::
      (m in all && x !in Helper.Exports(p, m).modules && ModuleCandidate(s, EntriesOf(p, m), ScanOf(scan, m), x))
      ==> x in ModulesDeps.Lookup(r, m).modules
    ensures forall m, y ::
      (m in all && y !in Helper.Exports(p, m).libs && LibraryCandidate(s, EntriesOf(p, m), ScanOf(scan, m), y))
      ==> y in ModulesDeps.Lookup(r, m).libs
  {
    forall m, x | m in all && x !in Helper.Exports(p, m).modules && ModuleCandidate(s, EntriesOf(p, m), ScanOf(scan, m), x)
      ensures x in ModulesDeps.Lookup(r, m).modules
    {
      ModuleCandidateAntitone(s, EntriesOf(p, m), ScanOf(scan, m), ModulesDeps.Lookup(usage, m), x);
    }
    forall m, y | m in all && y !in Helper.Exports(p, m).libs && LibraryCandidate(s, EntriesOf(p, m), ScanOf(scan, m), y)
      ensures y in ModulesDeps.Lookup(r, m).libs
    {
      LibraryCandidateAntitone(s, EntriesOf(p, m), ScanOf(scan, m), ModulesDeps.Lookup(usage, m), y);
    }
  }

  /** Without export propagation the proposals are exactly the candidates
      against the scan. */
  lemma PlanExactWithoutExports(s: Strategy, p: Project, all: seq<Module>, scan: map<Module, EdgeSet>, usage: Deps, r: Deps)
    requires s.SkipExportDependencies?
    requires usage == Usage(s, p, all, scan)
    requires r == PlanRemovals(s, p, all, usage, ModulesDeps.Empty)
    ensures forall m, x :: m in all ==>
      (x in ModulesDeps.Lookup(r, m).modules <==> ModuleCandidate(s, EntriesOf(p, m), ScanOf(scan, m), x))
    ensures forall m, y :: m in all ==>
      (y in ModulesDeps.Lookup(r, m).libs <==> LibraryCandidate(s, EntriesOf(p, m), ScanOf(scan, m), y))
  {
    forall m, x | m in all
      ensures x in ModulesDeps.Lookup(r, m).modules <==> ModuleCandidate(s, EntriesOf(p, m), ScanOf(scan, m), x)
    {
      ModuleCandidateAntitone(s, EntriesOf(p, m), ScanOf(scan, m), ModulesDeps.Lookup(usage, m), x);
      ModuleCandidateAntitone(s, EntriesOf(p, m), ModulesDeps.Lookup(usage, m), ScanOf(scan, m), x);
    }
    forall m, y | m in all
      ensures y in ModulesDeps.Lookup(r, m).libs <==> LibraryCandidate(s, EntriesOf(p, m), ScanOf(scan, m), y)
    {
      LibraryCandidateAntitone(s, EntriesOf(p, m), ScanOf(scan, m), ModulesDeps.Lookup(usage, m), y);
      LibraryCandidateAntitone(s, EntriesOf(p, m), ModulesDeps.Lookup(usage, m), ScanOf(scan, m), y);
    }
  }

  /** `processModulesDependencies(modules)` as written: the planner
      dereferences `forModule`, which is `null` for every module whose scan
      found nothing. It aborts exactly when an expanded module crashes in
      planning; otherwise it agrees with `ProcessModulesDependencies`. */
  function ProcessModulesDependenciesAsWritten(s: Strategy, p: Project, initial: seq<Module>, enumeration: seq<Module>,
                                               scan: map<Module, EdgeSet>): (r: Result<Deps, Crash>)
    requires s.WithExportDependencies? ==> Enumerates(enumeration, Helper.IncludeExportDependencies(p, initial))
    ensures var all := CollectAllModules(s, p, initial, enumeration);
      r.Failure? <==> exists m :: m in all && Crashes(s, p, Usage(s, p, all, scan), m)
    ensures r.Success? ==> r.value == ProcessModulesDependencies(s, p, initial, enumeration, scan)
  {
    var all := CollectAllModules(s, p, initial, enumeration);
    PlanRemovalsAsWritten(s, p, all, Usage(s, p, all, scan), ModulesDeps.Empty)
  }

  /** An expanded module without exports whose scan found nothing, but
      which has an entry the strategy supports, makes the analysis as
      written abort. */
  lemma NothingFoundCrashes(s: Strategy, p: Project, initial: seq<Module>, enumeration: seq<Module>,
                            scan: map<Module, EdgeSet>, m: Module, e: OrderEntry)
    requires s.WithExportDependencies? ==> Enumerates(enumeration, Helper.IncludeExportDependencies(p, initial))
    requires m in CollectAllModules(s, p, initial, enumeration)
    requires IdentitySet.IsEmpty(Helper.Exports(p, m)) && IdentitySet.IsEmpty(ScanOf(scan, m))
    requires e in EntriesOf(p, m) && IsSupportedDependency(s, e)
    ensures ProcessModulesDependenciesAsWritten(s, p, initial, enumeration, scan).Failure?
  {
    var all := CollectAllModules(s, p, initial, enumeration);
    assert Crashes(s, p, Usage(s, p, all, scan), m);
  }

  /** `processAllDependencies`: the analysis of every module of the project
      (`sorted` lists them, in the module manager's order). Records are
      non-empty and belong to project modules or their dependents. */
  function ProcessAllDependencies(s: Strategy, p: Project, sorted: seq<Module>, enumeration: seq<Module>,
                                  scan: map<Module, EdgeSet>): (r: Deps)
    requires (set m | m in sorted) == p.entries.Keys
    requires s.WithExportDependencies? ==> Enumerates(enumeration, Helper.IncludeExportDependencies(p, sorted))
    ensures ModulesDeps.Valid(r)
    ensures forall m :: m in r.sets ==> m in p.entries || m in ExportClosure.Listed(p)
  {
    ProcessModulesDependencies(s, p, sorted, enumeration, scan)
  }

  /** When the usage the planner reads (the scan after propagation) holds
      the target of every removable entry of its module, nothing is
      proposed. */
  lemma AllUsedNothingProposed(s: Strategy, p: Project, initial: seq<Module>, enumeration: seq<Module>,
                               scan: map<Module, EdgeSet>)
    requires s.WithExportDependencies? ==> Enumerates(enumeration, Helper.IncludeExportDependencies(p, initial))
    requires var usage := Usage(s, p, CollectAllModules(s, p, initial, enumeration), scan);
      forall m, e :: e in EntriesOf(p, m) && RemovableDependency(Some(e)) && TargetModule(e).Some? ==>
        TargetModule(e).value in ModulesDeps.Lookup(usage, m).modules
    requires var usage := Usage(s, p, CollectAllModules(s, p, initial, enumeration), scan);
      forall m, e :: e in EntriesOf(p, m) && RemovableDependency(Some(e)) && TargetLibrary(e).Some? ==>
        TargetLibrary(e).value in ModulesDeps.Lookup(usage, m).libs
    ensures ModulesDeps.IsEmpty(ProcessModulesDependencies(s, p, initial, enumeration, scan))
  {
    var all := CollectAllModules(s, p, initial, enumeration);
    var usage := Usage(s, p, all, scan);
    var r := PlanRemovals(s, p, all, usage, ModulesDeps.Empty);
    assert r == ProcessModulesDependencies(s, p, initial, enumeration, scan);
    forall m
      ensures IdentitySet.IsEmpty(ModulesDeps.Lookup(r, m))
    {
      NoCandidates(s, EntriesOf(p, m), ModulesDeps.Lookup(usage, m));
    }
  }

  /** Entries whose removable targets are all in `used` offer no candidate. */
  lemma NoCandidates(s: Strategy, es: seq<OrderEntry>, used: EdgeSet)
    requires forall e :: e in es && RemovableDependency(Some(e)) && TargetModule(e).Some? ==> TargetModule(e).value in used.modules
    requires forall e :: e in es && RemovableDependency(Some(e)) && TargetLibrary(e).Some? ==> TargetLibrary(e).value in used.libs
    ensures forall x :: !ModuleCandidate(s, es, used, x)
    ensures forall y :: !LibraryCandidate(s, es, used, y)
  {
  }

  /** Skipping export dependencies, no exported entry is ever proposed:
      each proposal comes from a non-exported entry of its module. */
  lemma SkipNeverProposesExports(p: Project, initial: seq<Module>, scan: map<Module, EdgeSet>)
    ensures var r := ProcessModulesDependencies(SkipExportDependencies, p, initial, [], scan);
      (forall m, x :: x in ModulesDeps.Lookup(r, m).modules ==>
         exists e :: e in EntriesOf(p, m) && TargetModule(e) == Some(x) && !e.exported) &&
      (forall m, y :: y in ModulesDeps.Lookup(r, m).libs ==>
         exists e :: e in EntriesOf(p, m) && TargetLibrary(e) == Some(y) && !e.exported)
  {
    var r := ProcessModulesDependencies(SkipExportDependencies, p, initial, [], scan);
    forall m, x | x in ModulesDeps.Lookup(r, m).modules
      ensures exists e :: e in EntriesOf(p, m) && TargetModule(e) == Some(x) && !e.exported
    {
      var e :| e in EntriesOf(p, m) && IsSupportedDependency(SkipExportDependencies, e) && RemovableDependency(Some(e))
        && TargetModule(e) == Some(x) && x !in ScanOf(scan, m).modules;
      assert !e.exported;
    }
    forall m, y | y in ModulesDeps.Lookup(r, m).libs
      ensures exists e :: e in EntriesOf(p, m) && TargetLibrary(e) == Some(y) && !e.exported
    {
      var e :| e in EntriesOf(p, m) && IsSupportedDependency(SkipExportDependencies, e) && RemovableDependency(Some(e))
        && TargetLibrary(e) == Some(y) && y !in ScanOf(scan, m).libs;
      assert !e.exported;
    }
  }

  /** For an expanded module without exports, the proposal is exactly its
      set of candidates against the scan. */
  lemma ProposalIsCandidates(s: Strategy, p: Project, initial: seq<Module>, enumeration: seq<Module>,
                             scan: map<Module, EdgeSet>, m: Module, mods: set<Module>, libs: set<Library>)
    requires s.WithExportDependencies? ==> Enumerates(enumeration, Helper.IncludeExportDependencies(p, initial))
    requires m in CollectAllModules(s, p, initial, enumeration)
    requires IdentitySet.IsEmpty(Helper.Exports(p, m))
    requires forall x :: ModuleCandidate(s, EntriesOf(p, m), ScanOf(scan, m), x) <==> x in mods
    requires forall y :: LibraryCandidate(s, EntriesOf(p, m), ScanOf(scan, m), y) <==> y in libs
    ensures ModulesDeps.Lookup(ProcessModulesDependencies(s, p, initial, enumeration, scan), m) == IdentitySet.LibOrModuleSet(mods, libs)
  {
    var r := ProcessModulesDependencies(s, p, initial, enumeration, scan);
    var es := EntriesOf(p, m);
    var x := Helper.Exports(p, m);
    forall k | k in mods
      ensures k in ModulesDeps.Lookup(r, m).modules
    {
      assert ModuleCandidate(s, es, ScanOf(scan, m), k) && k !in x.modules;
    }
    forall k | k in ModulesDeps.Lookup(r, m).modules
      ensures k in mods
    {
      assert ModuleCandidate(s, es, ScanOf(scan, m), k);
    }
    forall l | l in libs
      ensures l in ModulesDeps.Lookup(r, m).libs
    {
      assert LibraryCandidate(s, es, ScanOf(scan, m), l) && l !in x.libs;
    }
    forall l | l in ModulesDeps.Lookup(r, m).libs
      ensures l in libs
    {
      assert LibraryCandidate(s, es, ScanOf(scan, m), l);
    }
    assert ModulesDeps.Lookup(r, m).modules == mods;
    assert ModulesDeps.Lookup(r, m).libs == libs;
  }

  /** No proposal of a module is in that module's usage as the planner
      reads it, after propagation. */
  lemma ProposalsAvoidUsage(s: Strategy, p: Project, initial: seq<Module>, enumeration: seq<Module>,
                            scan: map<Module, EdgeSet>, m: Module)
    requires s.WithExportDependencies? ==> Enumerates(enumeration, Helper.IncludeExportDependencies(p, initial))
    ensures var usage := Usage(s, p, CollectAllModules(s, p, initial, enumeration), scan);
      IdentitySet.IsEmpty(IdentitySet.Intersect(
        ModulesDeps.Lookup(ProcessModulesDependencies(s, p, initial, enumeration, scan), m), ModulesDeps.Lookup(usage, m)))
  {
    var all := CollectAllModules(s, p, initial, enumeration);
    var usage := Usage(s, p, all, scan);
    var r := PlanRemovals(s, p, all, usage, ModulesDeps.Empty);
    assert r == ProcessModulesDependencies(s, p, initial, enumeration, scan);
    var i := IdentitySet.Intersect(ModulesDeps.Lookup(r, m), ModulesDeps.Lookup(usage, m));
    forall x | x in ModulesDeps.Lookup(r, m).modules
      ensures x !in ModulesDeps.Lookup(usage, m).modules
    {
      assert ModuleCandidate(s, EntriesOf(p, m), ModulesDeps.Lookup(usage, m), x);
    }
    forall y | y in ModulesDeps.Lookup(r, m).libs
      ensures y !in ModulesDeps.Lookup(usage, m).libs
    {
      assert LibraryCandidate(s, EntriesOf(p, m), ModulesDeps.Lookup(usage, m), y);
    }
    assert forall x :: !IdentitySet.ContainsModule(i, Some(x));
    assert forall y :: !IdentitySet.ContainsLibrary(i, Some(y));
  }
}
