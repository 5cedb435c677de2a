# IDEA.Dependencies — a Dafny model of the dependency analysis

IDEA.Dependencies is an IntelliJ plugin that finds module dependencies a
project declares but never uses, and proposes them for removal. This project
models the analysis at the plugin's core:

- **Edge sets** (`LibOrModuleSet`). A set of module and library dependency
  targets. There are three revisions:
  - `IdentitySet` is the current one, keyed by object identity.
  - `NameSet` is the older `data/` one, keyed by name and offering `intersect`.
  - `LegacyNameSet` is the oldest. Its add and remove operations report
    whether they did nothing.
- **The removability filter** (`DependenciesFilter`). Module entries are
  always removable. Library entries are removable only in compile or test
  scope. Every other kind of entry is never removable.
- **Result maps.** These map each module to the edge set recorded for it.
  - `ModulesDeps` is the current map. Its `addAll` drops empty sets, so no
    stored record is empty (`Valid`).
  - `NamedModulesDeps` is the old name-keyed map. It overwrites on insert.
  - `RemoveModules` models `RemoveModulesModel`. It refuses `null` and empty
    sets.
- **Export closure** (`ExportClosure`, `Helper`, `LegacyHelper`). The
  selected modules are expanded with every module that depends on a module
  exporting something. There is one generic worklist definition. It is
  proved to be the least superset of the seeds that is closed under
  "exporting module ⇒ its dependents".
- **Usage propagation** (`Helper`, `LegacyHelper`).
  - In the current helper, each exporting module absorbs the usages its
    dependents make of its exports. This is modelled as a fold over the
    module array. The result is proved to depend on the order of the array.
  - The old helper does the same in place, over name-keyed records. It
    dereferences those records without a check, so it is modelled as a
    `Result` that fails exactly when a needed record is missing.
- **The analyzer** (`Analyzer`). Its pipeline is:
  1. collect the modules to analyse under a strategy, either with or without
     export dependencies;
  2. aggregate the per-module scans;
  3. propagate usages;
  4. for every module, propose each supported order entry whose target was
     not used.

  `AnalyzerExamples` replays two of the repository's analyzer test
  scenarios.

The code is followed where it differs from the written design:

- The old helper uses the same-package `LibOrModuleSet`, but it calls
  `intersect`, which only the `data/` revision has. The model therefore
  resolves the old helper against `NameSet` and `NamedModulesDeps`.
- The old analyzer calls `collectionActualModulesDependencies` and
  `addAllRemoves(module, set)`. Only the current searcher and the current
  `addAll` provide these. The analyzer is therefore modelled over the current
  identity-keyed data classes.
- The strategies (`AnalyzeStrategies`) are resolved the same way. The type
  `ModulesDependencies` it passes to `updateExportedDependenciesUsages` is
  the same-package, name-keyed map of the old helper. Yet the filter of
  `SKIP_EXPORT_DEPENDENCIES` calls `isExportDependency`, which only the
  current helper has. In the model, the propagation step of
  `WITH_EXPORT_DEPENDENCIES` (`Analyzer.UpdateDetectedDependencies`) is
  `Helper.UpdateExportedDependenciesUsages` over identity-keyed records,
  which skips a dependent without a record. The old helper's propagation is
  modelled separately, as `LegacyHelper.UpdateExportedDependenciesUsages`.
  Had the strategy used it, this step could itself fail on a missing record
  (`LegacyHelper.ExampleMissingRecordCrashes`).

The following are parameters, because the program takes them from the IDE or
from hashing:

- `scan`: a map from module to the edge set found in its sources. The PSI
  search is not modelled.
- `enumeration`: the iteration order of the expanded module set.
- `sorted`: the module order from `getSortedModules`.

Java `null` is `Option.None`. A dereference of a missing record is
`Crash.NullPointerException` inside a `Result`.

## Model

| member | source | states |
|---|---|---|
| DependenciesFilter.RemovableDependency | src/main/java/com/eugenePetrenko/idea/dependencies/DependenciesFilter.java:29-42 | `null` and non-module, non-library entries are never removable; module entries always are; library entries are removable exactly in compile or test scope |
| IdentitySet.Contains | src/main/java/com/eugenePetrenko/idea/dependencies/data/LibOrModuleSet.java:42-53 | an entry is contained iff its (non-null) module or library target is a member; `null` entries and other kinds never are |
| IdentitySet.AddModule | src/main/java/com/eugenePetrenko/idea/dependencies/data/LibOrModuleSet.java:81-84 | afterwards exactly the old members plus the given module are contained; a `null` module adds nothing; libraries untouched |
| IdentitySet.RemoveModule | src/main/java/com/eugenePetrenko/idea/dependencies/data/LibOrModuleSet.java:86-89 | afterwards exactly the old members minus the given module are contained; libraries untouched |
| IdentitySet.AddLibrary | src/main/java/com/eugenePetrenko/idea/dependencies/data/LibOrModuleSet.java:71-74 | afterwards exactly the old libraries plus the given one are contained; modules untouched |
| IdentitySet.RemoveLibrary | src/main/java/com/eugenePetrenko/idea/dependencies/data/LibOrModuleSet.java:76-79 | afterwards exactly the old libraries minus the given one are contained; modules untouched |
| IdentitySet.AddEntry | src/main/java/com/eugenePetrenko/idea/dependencies/data/LibOrModuleSet.java:66-69 | a non-removable entry changes nothing; a removable one adds exactly its target to the matching component |
| IdentitySet.AddEntries | src/main/java/com/eugenePetrenko/idea/dependencies/data/LibOrModuleSet.java:55-59 | a target is present afterwards iff it was before or some removable entry of the collection points at it |
| IdentitySet.AddAll | src/main/java/com/eugenePetrenko/idea/dependencies/data/LibOrModuleSet.java:61-64 | componentwise union: a target is present iff it is in either operand |
| IdentitySet.Intersect | src/main/java/com/eugenePetrenko/idea/dependencies/data/LibOrModuleSet.java:160-174 | a target is present iff it is in both operands |
| IdentitySet.IsEmpty | src/main/java/com/eugenePetrenko/idea/dependencies/data/LibOrModuleSet.java:91-93 | true iff no module and no library is a member |
| IdentitySet.Equals | src/main/java/com/eugenePetrenko/idea/dependencies/data/LibOrModuleSet.java:144-150 | true iff both sets have the same module members and the same library members |
| IdentitySet.AddThenRemoveModule | src/main/java/com/eugenePetrenko/idea/dependencies/data/LibOrModuleSet.java:81-89 | adding then removing a module leaves it absent and every other member as before |
| IdentitySet.AddThenRemoveLibrary | src/main/java/com/eugenePetrenko/idea/dependencies/data/LibOrModuleSet.java:71-79 | adding then removing a library leaves it absent and every other member as before |
| IdentitySet.NullIgnored | src/main/java/com/eugenePetrenko/idea/dependencies/data/LibOrModuleSet.java:42-89 | `null` targets are never contained and adding or removing them changes nothing |
| IdentitySet.AddEntryMatchingComponent | src/main/java/com/eugenePetrenko/idea/dependencies/data/LibOrModuleSet.java:117-141 | after adding a removable entry with a target, that entry is contained (ADD and CONTAINS agree) |
| IdentitySet.UnionLaws | src/main/java/com/eugenePetrenko/idea/dependencies/data/LibOrModuleSet.java:61-64 | the empty set is a unit of union, and both operands lie inside the union |
| IdentitySet.IntersectLaws | src/main/java/com/eugenePetrenko/idea/dependencies/data/LibOrModuleSet.java:160-174 | intersection is idempotent and commutative, is annihilated by the empty set, and lies inside both operands |
| IdentitySet.EqualsIsValueEquality | src/main/java/com/eugenePetrenko/idea/dependencies/data/LibOrModuleSet.java:91-150 | `equals` coincides with value equality, and `isEmpty` with equality to a fresh set |
| NameSet.Contains | src/com/eugenePetrenko/idea/dependencies/data/LibOrModuleSet.java:42-55 | an entry is contained iff its target's name is stored; `null` targets and unnamed libraries never are |
| NameSet.AddModule | src/com/eugenePetrenko/idea/dependencies/data/LibOrModuleSet.java:87-91 | afterwards exactly the modules with an old name or the added name are contained |
| NameSet.RemoveModule | src/com/eugenePetrenko/idea/dependencies/data/LibOrModuleSet.java:93-97 | afterwards exactly the modules with an old name other than the removed one are contained |
| NameSet.AddLibrary | src/com/eugenePetrenko/idea/dependencies/data/LibOrModuleSet.java:73-78 | the library's name is added; a `null` library or a missing name leaves the set unchanged |
| NameSet.RemoveLibrary | src/com/eugenePetrenko/idea/dependencies/data/LibOrModuleSet.java:80-85 | the library's name is removed; a `null` library or a missing name leaves the set unchanged |
| NameSet.AddEntry | src/com/eugenePetrenko/idea/dependencies/data/LibOrModuleSet.java:68-71 | a non-removable entry changes nothing; a removable one adds exactly its target's key |
| NameSet.RemoveEntry | src/com/eugenePetrenko/idea/dependencies/data/LibOrModuleSet.java:99-101 | removes exactly the target's key, whatever the entry's scope |
| NameSet.AddEntries | src/com/eugenePetrenko/idea/dependencies/data/LibOrModuleSet.java:57-61 | a name is present afterwards iff it was before or some removable entry's target carries it |
| NameSet.AddAll | src/com/eugenePetrenko/idea/dependencies/data/LibOrModuleSet.java:63-66 | componentwise union of the name sets |
| NameSet.Intersect | src/com/eugenePetrenko/idea/dependencies/data/LibOrModuleSet.java:186-200 | a name is present iff it is in both operands |
| NameSet.IsEmpty | src/com/eugenePetrenko/idea/dependencies/data/LibOrModuleSet.java:103-105 | true iff no name is stored in either component |
| NameSet.Equals | src/com/eugenePetrenko/idea/dependencies/data/LibOrModuleSet.java:170-177 | true iff both components hold the same names |
| NameSet.SameNameModules | src/com/eugenePetrenko/idea/dependencies/data/LibOrModuleSet.java:42-45 | two modules with one name are indistinguishable to contains, add and remove |
| NameSet.SameNameLibraries | src/com/eugenePetrenko/idea/dependencies/data/LibOrModuleSet.java:46-50 | two libraries with one name are indistinguishable to contains, add and remove |
| NameSet.NamelessLibraryIgnored | src/com/eugenePetrenko/idea/dependencies/data/LibOrModuleSet.java:73-85 | an unnamed library is never contained, and no add or remove of it (directly or by entry) has an effect |
| NameSet.RemoveEntryNotGated | src/com/eugenePetrenko/idea/dependencies/data/LibOrModuleSet.java:68-101 | a present runtime-scope library is not added by `addDependency` yet is removed by `removeDependency` |
| NameSet.AddThenRemoveEntry | src/com/eugenePetrenko/idea/dependencies/data/LibOrModuleSet.java:68-155 | a removable entry with a key is contained after adding it and not after removing it again |
| NameSet.UnionLaws | src/com/eugenePetrenko/idea/dependencies/data/LibOrModuleSet.java:63-66 | the empty set is a unit of union, and both operands lie inside the union |
| NameSet.IntersectLaws | src/com/eugenePetrenko/idea/dependencies/data/LibOrModuleSet.java:186-200 | intersection is idempotent and commutative, is annihilated by the empty set, and lies inside both operands |
| NameSet.EqualsIsValueEquality | src/com/eugenePetrenko/idea/dependencies/data/LibOrModuleSet.java:103-177 | `equals` coincides with value equality, and `isEmpty` with equality to a fresh set |
| LegacyNameSet.AddModuleReporting | src/com/eugenePetrenko/idea/dependencies/LibOrModuleSet.java:87-92 | answers `true` exactly for a `null` module, which changes nothing; otherwise the name is added and nothing else changes |
| LegacyNameSet.RemoveModuleReporting | src/com/eugenePetrenko/idea/dependencies/LibOrModuleSet.java:94-99 | answers `true` exactly for a `null` module, which changes nothing; otherwise the name is gone and nothing else changes |
| LegacyNameSet.RemoveLibraryReporting | src/com/eugenePetrenko/idea/dependencies/LibOrModuleSet.java:79-85 | answers `true` exactly for a `null` library or a missing name, which changes nothing; otherwise the name is gone |
| LegacyNameSet.ReportingAgreesWithSilent | src/com/eugenePetrenko/idea/dependencies/LibOrModuleSet.java:72-99 | the reporting operations change the set exactly as the later revision's silent ones |
| ModulesDeps.AddAll | src/main/java/com/eugenePetrenko/idea/dependencies/data/ModulesDependencies.java:33-43 | an empty set changes nothing; otherwise the module's record becomes the union of old record and set; other records untouched; no empty record is ever stored |
| ModulesDeps.ForModule | src/main/java/com/eugenePetrenko/idea/dependencies/data/ModulesDependencies.java:50-55 | an absent answer reads as the empty set, and on a valid map the answer is absent iff the module has nothing recorded |
| ModulesDeps.Modules | src/main/java/com/eugenePetrenko/idea/dependencies/data/ModulesDependencies.java:45-48 | exactly the modules with a (non-empty) record |
| ModulesDeps.IsEmpty | src/main/java/com/eugenePetrenko/idea/dependencies/data/ModulesDependencies.java:57-63 | true iff every module's record is empty; on a valid map iff nothing is stored |
| ModulesDeps.Equals | src/main/java/com/eugenePetrenko/idea/dependencies/data/ModulesDependencies.java:82-102 | true iff every module reads the same record, a missing record counting as empty |
| ModulesDeps.EqualsIsEquivalence | src/main/java/com/eugenePetrenko/idea/dependencies/data/ModulesDependencies.java:82-102 | `equals` is reflexive, symmetric and transitive |
| ModulesDeps.EmptyEntriesInvisible | src/main/java/com/eugenePetrenko/idea/dependencies/data/ModulesDependencies.java:57-102 | `isEmpty` is equality with a fresh map, and storing an empty record is invisible to `equals` |
| NamedModulesDeps.AddRemoves | src/com/eugenePetrenko/idea/dependencies/ModulesDependencies.java:36-38 | the module's name now answers exactly the given set; every other name is untouched |
| NamedModulesDeps.AddAllRemoves | src/com/eugenePetrenko/idea/dependencies/ModulesDependencies.java:40-43 | the keys are those of both maps; the argument's record wins on a clash; the receiver's other records are kept |
| NamedModulesDeps.ForModule | src/com/eugenePetrenko/idea/dependencies/ModulesDependencies.java:44-47 | answers the record stored under the module's name, absent iff no record was stored |
| NamedModulesDeps.IsEmpty | src/com/eugenePetrenko/idea/dependencies/ModulesDependencies.java:49-56 | true iff every name's record is empty |
| NamedModulesDeps.Equals | src/com/eugenePetrenko/idea/dependencies/ModulesDependencies.java:74-95 | true iff every name reads the same record, a missing record counting as empty |
| NamedModulesDeps.EmptyStoreInvisible | src/com/eugenePetrenko/idea/dependencies/ModulesDependencies.java:36-95 | the last insertion under a name wins, and storing an empty set where nothing was recorded is invisible to `equals` and `isEmpty` |
| RemoveModules.AddRemoves | src/com/eugenePetrenko/idea/dependencies/RemoveModulesModel.java:33-36 | a `null` or empty set changes nothing; otherwise the name answers exactly that set; other names untouched; no empty record is ever stored |
| RemoveModules.AddAllRemoves | src/com/eugenePetrenko/idea/dependencies/RemoveModulesModel.java:38-40 | keys of both maps, the argument winning on a clash, and no empty record stored |
| RemoveModules.ForModule | src/com/eugenePetrenko/idea/dependencies/RemoveModulesModel.java:42-45 | on a map without empty records, the answer is absent iff nothing is to be removed from that module |
| RemoveModules.IsEmpty | src/com/eugenePetrenko/idea/dependencies/RemoveModulesModel.java:47-49 | on a map without empty records, true iff no module has anything to remove |
| ExportClosure.Expand | src/main/java/com/eugenePetrenko/idea/dependencies/ModuleDependenciesHelper.java:49-63 | the worklist expansion keeps every visited module and every queued one; it terminates on cyclic dependents because an already visited module is skipped |
| ExportClosure.ExpandWithin | src/main/java/com/eugenePetrenko/idea/dependencies/ModuleDependenciesHelper.java:49-63 | the expansion adds only queued modules and dependents of modules |
| ExportClosure.ExpandClosesNewMembers | src/main/java/com/eugenePetrenko/idea/dependencies/ModuleDependenciesHelper.java:49-63 | every module the expansion adds that exports something has all its dependents in the result |
| ExportClosure.ExpandLeast | src/main/java/com/eugenePetrenko/idea/dependencies/ModuleDependenciesHelper.java:49-63 | the expansion lies inside every closed set containing the visited and queued modules |
| ExportClosure.Closure | src/main/java/com/eugenePetrenko/idea/dependencies/ModuleDependenciesHelper.java:40-63 | the least superset of the seeds in which every exporting module's dependents are present; every member is a seed or some module's dependent |
| Helper.IsExportDependency | src/main/java/com/eugenePetrenko/idea/dependencies/ModuleDependenciesHelper.java:89-94 | true iff the entry is exported, removable and has a target |
| Helper.CollectExports | src/main/java/com/eugenePetrenko/idea/dependencies/ModuleDependenciesHelper.java:96-119 | a target is collected iff it was already present or some exported, removable entry points at it |
| Helper.Exports | src/main/java/com/eugenePetrenko/idea/dependencies/ModuleDependenciesHelper.java:95-119 | exactly the targets of the module's exported, removable entries |
| Helper.ExportingModules | src/main/java/com/eugenePetrenko/idea/dependencies/ModuleDependenciesHelper.java:56 | exactly the modules whose exports are non-empty |
| Helper.IncludeExportDependencies | src/main/java/com/eugenePetrenko/idea/dependencies/ModuleDependenciesHelper.java:40-63 | the least superset of the selection closed under "exporting module ⇒ its dependents", drawn from the selection and dependents only |
| Helper.NoExportsNoExpansion | src/main/java/com/eugenePetrenko/idea/dependencies/ModuleDependenciesHelper.java:40-63 | a selection with no exporting module is returned as it is |
| Helper.GainOf | src/main/java/com/eugenePetrenko/idea/dependencies/ModuleDependenciesHelper.java:76-82 | what an exporting module absorbs is exactly those of its exports that some dependent's record uses, hence a subset of its exports |
| Helper.PropagateStep | src/main/java/com/eugenePetrenko/idea/dependencies/ModuleDependenciesHelper.java:71-85 | a module without exports changes nothing; otherwise its record grows by its gain and no other record changes |
| Helper.UpdateExportedDependenciesUsages | src/main/java/com/eugenePetrenko/idea/dependencies/ModuleDependenciesHelper.java:65-87 | records only grow, each within its old value plus its module's exports; modules not in the array or without exports are untouched |
| Helper.StepWithinExports | src/main/java/com/eugenePetrenko/idea/dependencies/ModuleDependenciesHelper.java:71-85 | one step grows every record, only by the record's own module's exports |
| Helper.UpdateTwoSteps | src/main/java/com/eugenePetrenko/idea/dependencies/ModuleDependenciesHelper.java:65-87 | a pass over two modules is the step for the first followed by the step for the second |
| Helper.ExampleExporterFirst | src/main/java/com/eugenePetrenko/idea/dependencies/ModuleDependenciesHelper.java:65-87 | processing a re-exporting chain exporter-first misses a usage |
| Helper.ExampleReExporterFirst | src/main/java/com/eugenePetrenko/idea/dependencies/ModuleDependenciesHelper.java:65-87 | processing the same chain re-exporter-first records it: the pass depends on the array order |
| LegacyHelper.Exports | src/com/eugenePetrenko/idea/dependencies/ModuleDependenciesHelper.java:89-108 | exactly the names of the targets of the module's exported, removable entries |
| LegacyHelper.IncludeExportDependencies | src/com/eugenePetrenko/idea/dependencies/ModuleDependenciesHelper.java:40-66 | the least superset of the selection closed under "module exporting names ⇒ its dependents" |
| LegacyHelper.Absorb | src/com/eugenePetrenko/idea/dependencies/ModuleDependenciesHelper.java:80-83 | fails iff a dependent exists and the module's or a dependent's record is missing; on success the module gains exactly the exported names some dependent uses, nothing else changes |
| LegacyHelper.Step | src/com/eugenePetrenko/idea/dependencies/ModuleDependenciesHelper.java:75-84 | fails iff the module exports something, has dependents and a needed record is missing; otherwise the exact gain is recorded |
| LegacyHelper.UpdateExportedDependenciesUsages | src/com/eugenePetrenko/idea/dependencies/ModuleDependenciesHelper.java:68-87 | succeeds iff every step finds its records; then keys are unchanged, records only grow by exports of modules of that name, and other names are untouched |
| LegacyHelper.ExampleMissingRecordCrashes | src/com/eugenePetrenko/idea/dependencies/ModuleDependenciesHelper.java:68-87 | an exporting module without a record aborts the pass; with a record it absorbs its dependent's usage |
| Analyzer.IsSupportedDependency | src/com/eugenePetrenko/idea/dependencies/AnalyzeStrategies.java:40-57 | with export dependencies every entry is supported; without, exactly the non-export dependencies |
| Analyzer.CollectAllModules | src/com/eugenePetrenko/idea/dependencies/AnalyzeStrategies.java:31-48 | with export dependencies, the given enumeration of the export closure; without, the selection itself |
| Analyzer.UpdateDetectedDependencies | src/com/eugenePetrenko/idea/dependencies/AnalyzeStrategies.java:35-52 | without export dependencies nothing changes; with them records only grow within their module's exports |
| Analyzer.CollectActualDependencies | src/main/java/com/eugenePetrenko/idea/dependencies/ModuleDependenciesSearcher.java:171-202 | each record is the union of the module's scans; a module whose scan found nothing gets no record |
| Analyzer.Removables | src/com/eugenePetrenko/idea/dependencies/ModuleDependenciesAnalyzer.java:84-92 | a target is proposed iff some supported, removable entry points at it and it is not in the usage |
| Analyzer.PlanRemovals | src/com/eugenePetrenko/idea/dependencies/ModuleDependenciesAnalyzer.java:81-94 | every analysed module's proposal is exactly its candidate set against its usage; no empty record; keys drawn from the analysed modules |
| Analyzer.Usage | src/com/eugenePetrenko/idea/dependencies/ModuleDependenciesAnalyzer.java:71-77 | covers every scan, lies within scan plus exports, equals the scan without export dependencies |
| Analyzer.ProcessModulesDependencies | src/com/eugenePetrenko/idea/dependencies/ModuleDependenciesAnalyzer.java:66-97 | every proposal is an unused, supported, removable target; every such target outside the module's exports is proposed; exact without export dependencies; keys within the analysed modules |
| Analyzer.ProposalsAvoidUsage | src/com/eugenePetrenko/idea/dependencies/ModuleDependenciesAnalyzer.java:84-92 | nothing proposed for a module is in that module's propagated usage |
| Analyzer.PlanSound | src/com/eugenePetrenko/idea/dependencies/ModuleDependenciesAnalyzer.java:81-94 | every proposal is a candidate against the raw scan |
| Analyzer.PlanComplete | src/com/eugenePetrenko/idea/dependencies/ModuleDependenciesAnalyzer.java:81-94 | every candidate against the raw scan that is not exported by the module is proposed |
| Analyzer.RemovablesAsWritten | src/com/eugenePetrenko/idea/dependencies/ModuleDependenciesAnalyzer.java:83-88 | aborts iff the usage record is missing and some entry is supported; otherwise agrees with the corrected planner |
| Analyzer.PlanRemovalsAsWritten | src/com/eugenePetrenko/idea/dependencies/ModuleDependenciesAnalyzer.java:81-94 | aborts iff some analysed module has no usage record and a supported entry; otherwise agrees with the corrected planner |
| Analyzer.ProcessModulesDependenciesAsWritten | src/com/eugenePetrenko/idea/dependencies/ModuleDependenciesAnalyzer.java:66-97 | aborts iff some analysed module has no usage record and a supported entry; otherwise equals the corrected analysis |
| Analyzer.NothingFoundCrashes | src/com/eugenePetrenko/idea/dependencies/ModuleDependenciesAnalyzer.java:73-88 | a module without exports whose scan is empty and which has a supported entry makes the analysis as written abort |
| Analyzer.ProcessAllDependencies | src/com/eugenePetrenko/idea/dependencies/ModuleDependenciesAnalyzer.java:44-54 | analysing all modules yields a map without empty records whose keys are project modules or their dependents |
| Analyzer.AllUsedNothingProposed | src/com/eugenePetrenko/idea/dependencies/ModuleDependenciesAnalyzer.java:84-92 | when the usage after propagation holds the target of every removable entry of its module, nothing is proposed |
| Analyzer.SkipNeverProposesExports | src/com/eugenePetrenko/idea/dependencies/AnalyzeStrategies.java:45-57 | without export dependencies, every proposal comes from a non-exported entry |
| Analyzer.ProposalIsCandidates | src/com/eugenePetrenko/idea/dependencies/ModuleDependenciesAnalyzer.java:81-94 | an analysed module without exports is proposed exactly its candidate sets |
| AnalyzerExamples.UnusedModuleScenario | testSrc/com/eugenePetrenko/idea/depedencies/AnalyzerTest.java:93-112 | with `m2` depending on an unused `m1`, the corrected analysis proposes exactly `m1` for `m2`, and the analysis as written aborts |
| AnalyzerExamples.UnusedModuleEveryModuleCrashes | src/com/eugenePetrenko/idea/dependencies/ModuleDependenciesAnalyzer.java:81-88 | in the unused-module scenario both `m1` and `m2` have no usage record and a supported entry, so the planner as written aborts on either |
| AnalyzerExamples.UnusedLibraryScenario | testSrc/com/eugenePetrenko/idea/depedencies/AnalyzerTest.java:69-90 | with `lc` used and `ia` unused, exactly `ia` is proposed for `m1` |
| AnalyzerExamples.UnusedLibraryAsWrittenAgrees | testSrc/com/eugenePetrenko/idea/depedencies/AnalyzerTest.java:69-90 | in that scenario the analysis as written succeeds with the same answer |

## Left out

- PSI reference search (`collectionActualModuleDependencies`): the search
  for usages in source files is replaced by the `scan` parameter.
- Read actions, background tasks, progress indicators and cancellation are
  IDE threading concerns. So is the rescaling of progress fractions in the
  searcher. None of them affects the result.
- Actions (`OnModuleAction`, `OnProjectAction`, `PostAction`,
  `ModuleDependenciesAction`), `ModuleDependenciesUpdater`, the selection
  dialog, `Comparators` and `TestAction`: these are UI and model-editing
  code, outside the analysis.
- `AnalyzeStrategy` is an interface in the program. Here it is the
  `Strategy` datatype, with one function per interface method.
- `toString` and `hashCode`: they have no effect on the analysis.
- HashSet iteration order in `includeExportDependencies` is not fixed by
  the program. `Analyzer.CollectAllModules` takes it as the `enumeration`
  parameter.
- `getSortedModules` order is given as the `sorted` parameter.
- `NamedModulesDeps.AddRemoves`: the old map also accepts a `null` set,
  after which `isEmpty` and `equals` would dereference it. Records are
  modelled as non-null values.
- `ModulesDeps.AddAll`: the current map stores the caller's set object
  itself, so a later mutation of that object by the caller would alias into
  the map. Value semantics are modelled.
- Operands left unchanged by `intersect`, `equals` and `isEmpty`: this is
  implicit in the immutable datatypes.
- Helper.UpdateExportedDependenciesUsages: the contract bounds each record
  by its module's exports but does not state the exact fixpoint. No fixpoint
  is reached in general, as `Helper.ExampleExporterFirst` and
  `Helper.ExampleReExporterFirst` show.
- Analyzer.ProcessModulesDependencies: with export dependencies, a target
  the module itself exports may be withheld from the proposal through
  propagated usage. Completeness is therefore stated only for targets
  outside the module's exports.

## Findings

| source | as written | input that shows it | evidently intended | confidence | as-written member | corrected member |
|---|---|---|---|---|---|---|
| src/com/eugenePetrenko/idea/dependencies/ModuleDependenciesAnalyzer.java:83-88 | the analyzer reads `forModule(module)` and calls `contains` on it without a `null` check. The searcher's aggregation stores no record for a module whose scan found nothing (src/main/java/com/eugenePetrenko/idea/dependencies/data/ModulesDependencies.java:35), so the read answers `null` | the unused-module test project: `m2` depends on `m1`, neither exports anything, and `m2`'s sources use nothing from `m1` | a missing record means "nothing used", so `m1` is proposed for removal from `m2`, as the test expects | medium, not executed | Analyzer.ProcessModulesDependenciesAsWritten (exhibited by AnalyzerExamples.UnusedModuleScenario) | Analyzer.ProcessModulesDependencies |
