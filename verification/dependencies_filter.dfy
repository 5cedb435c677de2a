/** The removability filter shared by every revision (`REMOVABLE_DEPENDENCY`). */
module DependenciesFilter {
  import opened Wrappers
  import opened ProjectModel

  /** The library scopes whose entries may be proposed for removal. */
  const RemovableLibraryScopes: set<Scope> := {Compile, Test}

  /** Whether an order entry may ever be proposed for removal. The visitor's
      default answer (`null` entry, any other entry kind) is `false`. */
  function RemovableDependency(e: Option<OrderEntry>): (r: bool)
    ensures e.None? ==> !r
    ensures e.Some? && e.value.ModuleEntry? ==> r
    ensures e.Some? && e.value.LibraryEntry? ==> (r <==> e.value.scope in RemovableLibraryScopes)
    ensures e.Some? && e.value.OtherEntry? ==> !r
  {
    match e
    case None => false
    case Some(entry) =>
      match entry
      case ModuleEntry(_, _, _) => true
      case LibraryEntry(_, scope, _) => scope == Compile || scope == Test
      case OtherEntry => false
  }

  /** Runtime and provided libraries are never removal candidates, whatever
      their target or export flag. */
  lemma ScopeExclusion(lib: Option<Library>, scope: Scope, exported: bool)
    requires scope == Runtime || scope == Provided
    ensures !RemovableDependency(Some(LibraryEntry(lib, scope, exported)))
  {
  }
}
