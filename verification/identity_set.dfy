/** The current edge set (`data/LibOrModuleSet` under `src/main/java`): two
    disjoint components, modules and libraries, keyed by object identity. */
module IdentitySet {
  import opened Wrappers
  import opened ProjectModel
  import opened DependenciesFilter
  import opened SetFacts

  /** A set of dependency targets. */
  datatype LibOrModuleSet = LibOrModuleSet(modules: set<Module>, libs: set<Library>)

  /** A freshly constructed set. */
  const Empty: LibOrModuleSet := LibOrModuleSet({}, {})

  /** `contains(Module)`: `null` is never contained. */
  function ContainsModule(s: LibOrModuleSet, m: Option<Module>): bool {
    m.Some? && m.value in s.modules
  }

  /** `contains(Library)`: `null` is never contained. */
  function ContainsLibrary(s: LibOrModuleSet, l: Option<Library>): bool {
    l.Some? && l.value in s.libs
  }

  /** `contains(OrderEntry)` through the CONTAINS visitor: module entries ask
      the module component, library entries the library component, and any
      other entry (or `null`) gets the default `false`. */
  function Contains(s: LibOrModuleSet, e: Option<OrderEntry>): (r: bool)
    ensures e.None? ==> !r
    ensures e.Some? && e.value.ModuleEntry? ==> (r <==> ContainsModule(s, e.value.target))
    ensures e.Some? && e.value.LibraryEntry? ==> (r <==> ContainsLibrary(s, e.value.library))
    ensures e.Some? && e.value.OtherEntry? ==> !r
  {
    match e
    case None => false
    case Some(entry) =>
      match entry
      case ModuleEntry(m, _, _) => ContainsModule(s, m)
      case LibraryEntry(l, _, _) => ContainsLibrary(s, l)
      case OtherEntry => false
  }

  /** `addDependency(Module)`: adds a non-null module, leaves the libraries. */
  function AddModule(s: LibOrModuleSet, m: Option<Module>): (r: LibOrModuleSet)
    ensures forall x :: ContainsModule(r, Some(x)) <==> ContainsModule(s, Some(x)) || m == Some(x)
    ensures r.libs == s.libs
  {
    if m.None? then s else s.(modules := s.modules + {m.value})
  }

  /** `removeDependency(Module)`: removes a non-null module, leaves the libraries. */
  function RemoveModule(s: LibOrModuleSet, m: Option<Module>): (r: LibOrModuleSet)
    ensures forall x :: ContainsModule(r, Some(x)) <==> ContainsModule(s, Some(x)) && m != Some(x)
    ensures r.libs == s.libs
  {
    if m.None? then s else s.(modules := s.modules - {m.value})
  }

  /** `addDependency(Library)`: adds a non-null library, leaves the modules. */
  function AddLibrary(s: LibOrModuleSet, l: Option<Library>): (r: LibOrModuleSet)
    ensures forall x :: ContainsLibrary(r, Some(x)) <==> ContainsLibrary(s, Some(x)) || l == Some(x)
    ensures r.modules == s.modules
  {
    if l.None? then s else s.(libs := s.libs + {l.value})
  }

  /** `removeDependency(Library)`: removes a non-null library, leaves the modules. */
  function RemoveLibrary(s: LibOrModuleSet, l: Option<Library>): (r: LibOrModuleSet)
    ensures forall x :: ContainsLibrary(r, Some(x)) <==> ContainsLibrary(s, Some(x)) && l != Some(x)
    ensures r.modules == s.modules
  {
    if l.None? then s else s.(libs := s.libs - {l.value})
  }

  /** `addDependency(OrderEntry)`: a removable entry adds its target to the
      matching component through the ADD visitor; anything else is ignored. */
  function AddEntry(s: LibOrModuleSet, e: OrderEntry): (r: LibOrModuleSet)
    ensures !RemovableDependency(Some(e)) ==> r == s
    ensures forall x :: x in r.modules <==>
      x in s.modules || (RemovableDependency(Some(e)) && TargetModule(e) == Some(x))
    ensures forall x :: x in r.libs <==>
      x in s.libs || (RemovableDependency(Some(e)) && TargetLibrary(e) == Some(x))
  {
    if !RemovableDependency(Some(e)) then s
    else
      match e
      case ModuleEntry(m, _, _) => AddModule(s, m)
      case LibraryEntry(l, _, _) => AddLibrary(s, l)
      case OtherEntry => s
  }

  /** `addDependencies(Collection<OrderEntry>)`: adds every entry in turn. */
  function AddEntries(s: LibOrModuleSet, es: seq<OrderEntry>): (r: LibOrModuleSet)
    ensures forall x :: x in r.modules <==>
      x in s.modules || exists e :: e in es && RemovableDependency(Some(e)) && TargetModule(e) == Some(x)
    ensures forall x :: x in r.libs <==>
      x in s.libs || exists e :: e in es && RemovableDependency(Some(e)) && TargetLibrary(e) == Some(x)
    decreases |es|
  {
    if es == [] then s
    else AddEntries(AddEntry(s, es[0]), es[1..])
  }

  /** `addDependencies(LibOrModuleSet)`: componentwise union into the receiver. */
  function AddAll(s: LibOrModuleSet, t: LibOrModuleSet): (r: LibOrModuleSet)
    ensures forall x :: ContainsModule(r, Some(x)) <==> ContainsModule(s, Some(x)) || ContainsModule(t, Some(x))
    ensures forall x :: ContainsLibrary(r, Some(x)) <==> ContainsLibrary(s, Some(x)) || ContainsLibrary(t, Some(x))
  {
    LibOrModuleSet(s.modules + t.modules, s.libs + t.libs)
  }

  /** `intersect(a, b)`: a fresh componentwise intersection. */
  function Intersect(a: LibOrModuleSet, b: LibOrModuleSet): (r: LibOrModuleSet)
    ensures forall x :: ContainsModule(r, Some(x)) <==> ContainsModule(a, Some(x)) && ContainsModule(b, Some(x))
    ensures forall x :: ContainsLibrary(r, Some(x)) <==> ContainsLibrary(a, Some(x)) && ContainsLibrary(b, Some(x))
  {
    LibOrModuleSet(a.modules * b.modules, a.libs * b.libs)
  }

  /** `isEmpty()`: nothing is contained in either component. */
  function IsEmpty(s: LibOrModuleSet): (r: bool)
    ensures r <==> (forall x :: x !in s.modules) && (forall x :: x !in s.libs)
  {
    EmptyIffNoMember(s.modules);
    EmptyIffNoMember(s.libs);
    s.libs == {} && s.modules == {}
  }

  /** `equals(Object)`: the library sets agree and the module sets agree. */
  function Equals(s: LibOrModuleSet, t: LibOrModuleSet): (r: bool)
    ensures r <==> ((forall x :: x in s.modules <==> x in t.modules) && (forall x :: x in s.libs <==> x in t.libs))
  {
    SameMembers(s.modules, t.modules);
    SameMembers(s.libs, t.libs);
    s.libs == t.libs && s.modules == t.modules
  }

  /** Is `a` componentwise contained in `b`? */
  predicate Subset(a: LibOrModuleSet, b: LibOrModuleSet) {
    a.modules <= b.modules && a.libs <= b.libs
  }

  /** After `addDependency(m)` the module is contained; after a following
      `removeDependency(m)` it is not. */
  lemma AddThenRemoveModule(s: LibOrModuleSet, m: Module)
    ensures ContainsModule(AddModule(s, Some(m)), Some(m))
    ensures !ContainsModule(RemoveModule(AddModule(s, Some(m)), Some(m)), Some(m))
  {
  }

  /** After `addDependency(l)` the library is contained; after a following
      `removeDependency(l)` it is not. */
  lemma AddThenRemoveLibrary(s: LibOrModuleSet, l: Library)
    ensures ContainsLibrary(AddLibrary(s, Some(l)), Some(l))
    ensures !ContainsLibrary(RemoveLibrary(AddLibrary(s, Some(l)), Some(l)), Some(l))
  {
  }

  /** A `null` argument is never contained and adding or removing it is a no-op. */
  lemma NullIgnored(s: LibOrModuleSet)
    ensures !Contains(s, None) && !ContainsModule(s, None) && !ContainsLibrary(s, None)
    ensures AddModule(s, None) == s && RemoveModule(s, None) == s
    ensures AddLibrary(s, None) == s && RemoveLibrary(s, None) == s
  {
  }

  /** Adding an entry touches only the component of its kind, and a
      removable entry with a target is contained afterwards. */
  lemma AddEntryMatchingComponent(s: LibOrModuleSet, e: OrderEntry)
    ensures e.ModuleEntry? ==> AddEntry(s, e).libs == s.libs
    ensures e.LibraryEntry? ==> AddEntry(s, e).modules == s.modules
    ensures e.OtherEntry? ==> AddEntry(s, e) == s
    ensures RemovableDependency(Some(e)) && (TargetModule(e).Some? || TargetLibrary(e).Some?)
      ==> Contains(AddEntry(s, e), Some(e))
  {
  }

  /** `addDependencies(set)` is a union: the empty set is its identity, it is
      idempotent, and both operands end up inside the result. */
  lemma UnionLaws(s: LibOrModuleSet, t: LibOrModuleSet)
    ensures AddAll(s, Empty) == s && AddAll(Empty, s) == s
    ensures AddAll(s, s) == s
    ensures Subset(s, AddAll(s, t)) && Subset(t, AddAll(s, t))
  {
  }

  /** `intersect` is idempotent, commutative, annihilated by the empty set,
      and lies inside both operands. */
  lemma IntersectLaws(a: LibOrModuleSet, b: LibOrModuleSet)
    ensures Intersect(a, a) == a
    ensures Intersect(a, b) == Intersect(b, a)
    ensures IsEmpty(Intersect(a, Empty))
    ensures Subset(Intersect(a, b), a) && Subset(Intersect(a, b), b)
  {
  }

  /** `equals` is exactly equality of the two components, and `isEmpty`
      exactly equality with a fresh set. */
  lemma EqualsIsValueEquality(s: LibOrModuleSet, t: LibOrModuleSet)
    ensures Equals(s, t) <==> s == t
    ensures IsEmpty(s) <==> s == Empty
  {
  }
}
