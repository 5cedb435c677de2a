/** The IDE's project model, reduced to pure data: modules, libraries, the
    declared order entries of each module and the reverse dependency index. */
module ProjectModel {
  import opened Wrappers

  /** A module. Two modules are the same object iff their `id`s agree; the
      older revisions only look at `name`. */
  datatype Module = Module(id: nat, name: string)

  /** A library. Its name may be missing (an unnamed module-level library). */
  datatype Library = Library(id: nat, name: Option<string>)

  /** The dependency scopes of an order entry. */
  datatype Scope = Compile | Test | Runtime | Provided

  /** A declared dependency of a module. The target of a module or library
      entry may be unresolved (`None`), as `getModule()` / `getLibrary()` can
      return `null`. `OtherEntry` stands for the SDK, module-source and any
      other kind of entry that the visitors ignore. */
  datatype OrderEntry =
    | ModuleEntry(target: Option<Module>, scope: Scope, exported: bool)
    | LibraryEntry(library: Option<Library>, scope: Scope, exported: bool)
    | OtherEntry

  /** The module a module entry points at; `None` for every other entry. */
  function TargetModule(e: OrderEntry): Option<Module> {
    if e.ModuleEntry? then e.target else None
  }

  /** The library a library entry points at; `None` for every other entry. */
  function TargetLibrary(e: OrderEntry): Option<Library> {
    if e.LibraryEntry? then e.library else None
  }

  /** A snapshot of the project graph: the order entries of each module and,
      for each module, the modules that depend on it. Modules missing from a
      map have no entries and no dependents. */
  datatype Project = Project(
    entries: map<Module, seq<OrderEntry>>,
    dependents: map<Module, seq<Module>>)

  /** The declared order entries of `m`. */
  function EntriesOf(p: Project, m: Module): seq<OrderEntry> {
    if m in p.entries then p.entries[m] else []
  }

  /** The modules that depend on `m` (`getModuleDependentModules`). */
  function DependentsOf(p: Project, m: Module): seq<Module> {
    if m in p.dependents then p.dependents[m] else []
  }

  /** How a computation of the analysis can abort: a `null` result map
      entry is dereferenced. */
  datatype Crash = NullPointerException
}
