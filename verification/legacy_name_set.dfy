/** The oldest edge set (`LibOrModuleSet` directly under `src/com`): the same
    name-keyed store as `NameSet`, without `intersect`, whose module add and
    remove and whose library remove report whether they were a no-op. Its
    other operations are those of `NameSet`. */
module LegacyNameSet {
  import opened Wrappers
  import opened ProjectModel
  import opened NameSet

  /** `addDependency(Module)`: answers `true` exactly when the module is
      `null` and nothing was done. */
  function AddModuleReporting(s: NameSet, m: Option<Module>): (r: (NameSet, bool))
    ensures r.1 <==> m.None?
    ensures r.1 ==> r.0 == s
    ensures !r.1 ==> ContainsModule(r.0, m) && r.0.libs == s.libs
    ensures !r.1 ==> forall x :: x != m.value.name ==> (x in r.0.modules <==> x in s.modules)
  {
    if m.None? then (s, true) else (s.(modules := s.modules + {m.value.name}), false)
  }

  /** `removeDependency(Module)`: answers `true` exactly when the module is
      `null` and nothing was done. */
  function RemoveModuleReporting(s: NameSet, m: Option<Module>): (r: (NameSet, bool))
    ensures r.1 <==> m.None?
    ensures r.1 ==> r.0 == s
    ensures !r.1 ==> !ContainsModule(r.0, m) && r.0.libs == s.libs
    ensures !r.1 ==> forall x :: x != m.value.name ==> (x in r.0.modules <==> x in s.modules)
  {
    if m.None? then (s, true) else (s.(modules := s.modules - {m.value.name}), false)
  }

  /** `removeDependency(Library)`: answers `true` exactly when the library or
      its name is `null` and nothing was done. */
  function RemoveLibraryReporting(s: NameSet, l: Option<Library>): (r: (NameSet, bool))
    ensures r.1 <==> l.None? || l.value.name.None?
    ensures r.1 ==> r.0 == s
    ensures !r.1 ==> !ContainsLibrary(r.0, l) && r.0.modules == s.modules
    ensures !r.1 ==> forall x :: Some(x) != l.value.name ==> (x in r.0.libs <==> x in s.libs)
  {
    match LibraryKey(l)
    case None => (s, true)
    case Some(name) => (s.(libs := s.libs - {name}), false)
  }

  /** The reporting operations change the set exactly as the silent ones of
      the later revision do. */
  lemma ReportingAgreesWithSilent(s: NameSet, m: Option<Module>, l: Option<Library>)
    ensures AddModuleReporting(s, m).0 == AddModule(s, m)
    ensures RemoveModuleReporting(s, m).0 == RemoveModule(s, m)
    ensures RemoveLibraryReporting(s, l).0 == RemoveLibrary(s, l)
  {
  }
}
