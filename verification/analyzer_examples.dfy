/** The analyzer's test scenarios (`AnalyzerTest`), as concrete projects
    whose scan results are given. */
module AnalyzerExamples {
  import opened Wrappers
  import opened ProjectModel
  import IdentitySet
  import ModulesDeps
  import ExportClosure
  import Helper
  import Analyzer

  const M1 := Module(1, "m1")
  const M2 := Module(2, "m2")

  /** `m2` declares a dependency on `m1`; neither exports anything. Each
      module also carries its own source entry, as every real module does. */
  const UnusedModuleProject := Project(
    map[M1 := [OtherEntry], M2 := [OtherEntry, ModuleEntry(Some(M1), Compile, false)]],
    map[M1 := [M2]])

  /** The scan finds no usage in either module. */
  const NothingUsed: map<Module, IdentitySet.LibOrModuleSet> := map[]

  /** Neither module of the unused-module project exports anything, so the
      expansion is the selection itself. */
  lemma UnusedModuleExpansion()
    ensures IdentitySet.IsEmpty(Helper.Exports(UnusedModuleProject, M1))
    ensures IdentitySet.IsEmpty(Helper.Exports(UnusedModuleProject, M2))
    ensures Analyzer.Enumerates([M1, M2], Helper.IncludeExportDependencies(UnusedModuleProject, [M1, M2]))
  {
    assert EntriesOf(UnusedModuleProject, M1) == [OtherEntry];
    assert EntriesOf(UnusedModuleProject, M2) == [OtherEntry, ModuleEntry(Some(M1), Compile, false)];
    Helper.NoExportsNoExpansion(UnusedModuleProject, [M1, M2]);
  }

  /** In `m2`, `m1` is the only candidate against the (empty) scan. */
  lemma UnusedModuleCandidates()
    ensures forall x ::
      Analyzer.ModuleCandidate(Analyzer.WithExportDependencies, EntriesOf(UnusedModuleProject, M2), Analyzer.ScanOf(NothingUsed, M2), x)
      <==> x in {M1}
    ensures forall y ::
      Analyzer.LibraryCandidate(Analyzer.WithExportDependencies, EntriesOf(UnusedModuleProject, M2), Analyzer.ScanOf(NothingUsed, M2), y)
      <==> y in {}
  {
    var es := EntriesOf(UnusedModuleProject, M2);
    assert es == [OtherEntry, ModuleEntry(Some(M1), Compile, false)];
    assert ModuleEntry(Some(M1), Compile, false) in es;
  }

  /** testUnusedModuleIsRemoved: reading the missing usage record as empty,
      `m1` is proposed for removal from `m2`, and nothing else is; the
      analysis as written aborts instead, because `m2`'s scan found nothing
      and so `m2` has no usage record. */
  lemma UnusedModuleScenario()
    ensures Analyzer.Enumerates([M1, M2], Helper.IncludeExportDependencies(UnusedModuleProject, [M1, M2]))
    ensures ModulesDeps.Lookup(
      Analyzer.ProcessModulesDependencies(Analyzer.WithExportDependencies, UnusedModuleProject, [M1, M2], [M1, M2], NothingUsed),
      M2) == IdentitySet.LibOrModuleSet({M1}, {})
    ensures Analyzer.ProcessModulesDependenciesAsWritten(
      Analyzer.WithExportDependencies, UnusedModuleProject, [M1, M2], [M1, M2], NothingUsed).Failure?
  {
    UnusedModuleExpansion();
    var s := Analyzer.WithExportDependencies;
    var e := ModuleEntry(Some(M1), Compile, false);
    assert e in EntriesOf(UnusedModuleProject, M2);
    assert M2 in Analyzer.CollectAllModules(s, UnusedModuleProject, [M1, M2], [M1, M2]);
    Analyzer.NothingFoundCrashes(s, UnusedModuleProject, [M1, M2], [M1, M2], NothingUsed, M2, e);
    UnusedModuleCandidates();
    Analyzer.ProposalIsCandidates(s, UnusedModuleProject, [M1, M2], [M1, M2], NothingUsed, M2, {M1}, {});
  }

  /** In the unused-module scenario the planner as written aborts on `m1`
      as well: its scan found nothing, so it has no usage record, and its
      source entry is supported under `WithExportDependencies`. */
  lemma UnusedModuleEveryModuleCrashes()
    ensures var s := Analyzer.WithExportDependencies;
      var usage := Analyzer.Usage(s, UnusedModuleProject, [M1, M2], NothingUsed);
      Analyzer.Crashes(s, UnusedModuleProject, usage, M1) && Analyzer.Crashes(s, UnusedModuleProject, usage, M2)
  {
    UnusedModuleExpansion();
    assert OtherEntry in EntriesOf(UnusedModuleProject, M1);
    assert OtherEntry in EntriesOf(UnusedModuleProject, M2);
  }

  const Lc := Library(1, Some("lc"))
  const Ia := Library(2, Some("ia"))

  /** `m1` declares libraries `lc` and `ia`, next to its own source entry. */
  const UnusedLibraryProject := Project(
    map[M1 := [OtherEntry, LibraryEntry(Some(Lc), Compile, false), LibraryEntry(Some(Ia), Compile, false)]],
    map[])

  /** The scan of `m1` finds `lc` used. */
  const LcUsed: map<Module, IdentitySet.LibOrModuleSet> := map[M1 := IdentitySet.LibOrModuleSet({}, {Lc})]

  /** The unused-library project has no exports, so `m1` alone is analysed. */
  lemma UnusedLibraryExpansion()
    ensures IdentitySet.IsEmpty(Helper.Exports(UnusedLibraryProject, M1))
    ensures Analyzer.Enumerates([M1], Helper.IncludeExportDependencies(UnusedLibraryProject, [M1]))
  {
    assert EntriesOf(UnusedLibraryProject, M1) == [OtherEntry, LibraryEntry(Some(Lc), Compile, false), LibraryEntry(Some(Ia), Compile, false)];
    Helper.NoExportsNoExpansion(UnusedLibraryProject, [M1]);
  }

  /** In `m1`, `ia` is the only candidate against the scan. */
  lemma UnusedLibraryCandidates()
    ensures forall y ::
      Analyzer.LibraryCandidate(Analyzer.WithExportDependencies, EntriesOf(UnusedLibraryProject, M1), Analyzer.ScanOf(LcUsed, M1), y)
      <==> y in {Ia}
    ensures forall x ::
      Analyzer.ModuleCandidate(Analyzer.WithExportDependencies, EntriesOf(UnusedLibraryProject, M1), Analyzer.ScanOf(LcUsed, M1), x)
      <==> x in {}
  {
    var es := EntriesOf(UnusedLibraryProject, M1);
    assert es == [OtherEntry, LibraryEntry(Some(Lc), Compile, false), LibraryEntry(Some(Ia), Compile, false)];
    assert LibraryEntry(Some(Ia), Compile, false) in es;
  }

  /** testUnusedLibraryIsRemoved: exactly `ia` is proposed for `m1`. */
  lemma UnusedLibraryScenario()
    ensures Analyzer.Enumerates([M1], Helper.IncludeExportDependencies(UnusedLibraryProject, [M1]))
    ensures ModulesDeps.Lookup(
      Analyzer.ProcessModulesDependencies(Analyzer.WithExportDependencies, UnusedLibraryProject, [M1], [M1], LcUsed),
      M1) == IdentitySet.LibOrModuleSet({}, {Ia})
  {
    UnusedLibraryExpansion();
    var s := Analyzer.WithExportDependencies;
    UnusedLibraryCandidates();
    assert M1 in Analyzer.CollectAllModules(s, UnusedLibraryProject, [M1], [M1]);
    Analyzer.ProposalIsCandidates(s, UnusedLibraryProject, [M1], [M1], LcUsed, M1, {}, {Ia});
  }

  /** In the unused-library scenario the analysis as written does not abort
      (the scan found `lc`, so `m1` has a record) and agrees with the
      corrected one. */
  lemma UnusedLibraryAsWrittenAgrees()
    ensures Analyzer.Enumerates([M1], Helper.IncludeExportDependencies(UnusedLibraryProject, [M1]))
    ensures Analyzer.ProcessModulesDependenciesAsWritten(Analyzer.WithExportDependencies, UnusedLibraryProject, [M1], [M1], LcUsed)
         == Success(Analyzer.ProcessModulesDependencies(Analyzer.WithExportDependencies, UnusedLibraryProject, [M1], [M1], LcUsed))
  {
    UnusedLibraryExpansion();
    var s := Analyzer.WithExportDependencies;
    var all := Analyzer.CollectAllModules(s, UnusedLibraryProject, [M1], [M1]);
    assert all == [M1];
    var usage := Analyzer.Usage(s, UnusedLibraryProject, all, LcUsed);
    assert Lc in Analyzer.ScanOf(LcUsed, M1).libs;
    assert M1 in usage.sets;
    assert !Analyzer.Crashes(s, UnusedLibraryProject, usage, M1);
  }
}
