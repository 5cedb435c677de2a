/** The older edge set (`data/LibOrModuleSet` under `src/com`): the same two
    components as the current one, but holding module and library NAMES, so
    that an unnamed library can never be stored. */
module NameSet {
  import opened Wrappers
  import opened ProjectModel
  import opened DependenciesFilter
  import opened SetFacts

  /** A set of dependency target names. */
  datatype NameSet = NameSet(modules: set<string>, libs: set<string>)

  /** A freshly constructed set. */
  const Empty: NameSet := NameSet({}, {})

  /** The key a library is stored under, if it has one. */
  function LibraryKey(l: Option<Library>): Option<string> {
    if l.Some? then l.value.name else None
  }

  /** The key a module is stored under, if it is not `null`. */
  function ModuleKey(m: Option<Module>): Option<string> {
    if m.Some? then Some(m.value.name) else None
  }

  /** `contains(Module)`: by name; `null` is never contained. */
  function ContainsModule(s: NameSet, m: Option<Module>): bool {
    m.Some? && m.value.name in s.modules
  }

  /** `contains(Library)`: by name; `null` and unnamed libraries are never contained. */
  function ContainsLibrary(s: NameSet, l: Option<Library>): bool {
    l.Some? && l.value.name.Some? && l.value.name.value in s.libs
  }

  /** `contains(OrderEntry)` through the CONTAINS visitor. */
  function Contains(s: NameSet, e: Option<OrderEntry>): (r: bool)
    ensures e.None? ==> !r
    ensures e.Some? && e.value.ModuleEntry? ==> (r <==> ContainsModule(s, e.value.target))
    ensures e.Some? && e.value.LibraryEntry? ==> (r <==> ContainsLibrary(s, e.value.library))
    ensures e.Some? && e.value.OtherEntry? ==> !r
  {
    match e
    case None => false
    case Some(entry) =>
      match entry
      case ModuleEntry(m, _, _) => ContainsModule(s, m)
      case LibraryEntry(l, _, _) => ContainsLibrary(s, l)
      case OtherEntry => false
  }

  /** `addDependency(Module)`: adds the module's name. */
  function AddModule(s: NameSet, m: Option<Module>): (r: NameSet)
    ensures forall x :: ContainsModule(r, Some(x)) <==> ContainsModule(s, Some(x)) || (m.Some? && m.value.name == x.name)
    ensures r.libs == s.libs
  {
    if m.None? then s else s.(modules := s.modules + {m.value.name})
  }

  /** `removeDependency(Module)`: removes the module's name. */
  function RemoveModule(s: NameSet, m: Option<Module>): (r: NameSet)
    ensures forall x :: ContainsModule(r, Some(x)) <==> ContainsModule(s, Some(x)) && !(m.Some? && m.value.name == x.name)
    ensures r.libs == s.libs
  {
    if m.None? then s else s.(modules := s.modules - {m.value.name})
  }

  /** `addDependency(Library)`: adds the library's name; a `null` library or
      a missing name is ignored. */
  function AddLibrary(s: NameSet, l: Option<Library>): (r: NameSet)
    ensures forall x :: ContainsLibrary(r, Some(x)) <==> ContainsLibrary(s, Some(x)) || (x.name.Some? && LibraryKey(l) == x.name)
    ensures LibraryKey(l).None? ==> r == s
    ensures r.modules == s.modules
  {
    match LibraryKey(l)
    case None => s
    case Some(name) => s.(libs := s.libs + {name})
  }

  /** `removeDependency(Library)`: removes the library's name; a `null`
      library or a missing name is ignored. */
  function RemoveLibrary(s: NameSet, l: Option<Library>): (r: NameSet)
    ensures forall x :: ContainsLibrary(r, Some(x)) <==> ContainsLibrary(s, Some(x)) && !(x.name.Some? && LibraryKey(l) == x.name)
    ensures LibraryKey(l).None? ==> r == s
    ensures r.modules == s.modules
  {
    match LibraryKey(l)
    case None => s
    case Some(name) => s.(libs := s.libs - {name})
  }

  /** `addDependency(OrderEntry)`: gated by removability, then the ADD visitor. */
  function AddEntry(s: NameSet, e: OrderEntry): (r: NameSet)
    ensures !RemovableDependency(Some(e)) ==> r == s
    ensures forall x :: x in r.modules <==>
      x in s.modules || (RemovableDependency(Some(e)) && ModuleKey(TargetModule(e)) == Some(x))
    ensures forall x :: x in r.libs <==>
      x in s.libs || (RemovableDependency(Some(e)) && LibraryKey(TargetLibrary(e)) == Some(x))
  {
    if !RemovableDependency(Some(e)) then s
    else
      match e
      case ModuleEntry(m, _, _) => AddModule(s, m)
      case LibraryEntry(l, _, _) => AddLibrary(s, l)
      case OtherEntry => s
  }

  /** `removeDependency(OrderEntry)`: the REMOVE visitor, NOT gated by
      removability: whatever the scope, the target's name goes. */
  function RemoveEntry(s: NameSet, e: OrderEntry): (r: NameSet)
    ensures forall x :: x in r.modules <==> x in s.modules && ModuleKey(TargetModule(e)) != Some(x)
    ensures forall x :: x in r.libs <==> x in s.libs && LibraryKey(TargetLibrary(e)) != Some(x)
  {
    match e
    case ModuleEntry(m, _, _) => RemoveModule(s, m)
    case LibraryEntry(l, _, _) => RemoveLibrary(s, l)
    case OtherEntry => s
  }

  /** `addDependencies(Collection<OrderEntry>)`: adds every entry in turn. */
  function AddEntries(s: NameSet, es: seq<OrderEntry>): (r: NameSet)
    ensures forall x :: x in r.modules <==>
      x in s.modules || exists e :: e in es && RemovableDependency(Some(e)) && ModuleKey(TargetModule(e)) == Some(x)
    ensures forall x :: x in r.libs <==>
      x in s.libs || exists e :: e in es && RemovableDependency(Some(e)) && LibraryKey(TargetLibrary(e)) == Some(x)
    decreases |es|
  {
    if es == [] then s
    else AddEntries(AddEntry(s, es[0]), es[1..])
  }

  /** `addDependencies(LibOrModuleSet)`: componentwise union into the receiver. */
  function AddAll(s: NameSet, t: NameSet): (r: NameSet)
    ensures forall x :: x in r.modules <==> x in s.modules || x in t.modules
    ensures forall x :: x in r.libs <==> x in s.libs || x in t.libs
  {
    NameSet(s.modules + t.modules, s.libs + t.libs)
  }

  /** `intersect(a, b)`: a fresh componentwise intersection of the name sets. */
  function Intersect(a: NameSet, b: NameSet): (r: NameSet)
    ensures forall x :: x in r.modules <==> x in a.modules && x in b.modules
    ensures forall x :: x in r.libs <==> x in a.libs && x in b.libs
  {
    NameSet(a.modules * b.modules, a.libs * b.libs)
  }

  /** `isEmpty()`: both name sets are empty. */
  function IsEmpty(s: NameSet): (r: bool)
    ensures r <==> (forall x :: x !in s.modules) && (forall x :: x !in s.libs)
  {
    EmptyIffNoMember(s.modules);
    EmptyIffNoMember(s.libs);
    s.libs == {} && s.modules == {}
  }

  /** `equals(Object)`: both name sets agree. */
  function Equals(s: NameSet, t: NameSet): (r: bool)
    ensures r <==> ((forall x :: x in s.modules <==> x in t.modules) && (forall x :: x in s.libs <==> x in t.libs))
  {
    SameMembers(s.modules, t.modules);
    SameMembers(s.libs, t.libs);
    s.libs == t.libs && s.modules == t.modules
  }

  /** Is `a` componentwise contained in `b`? */
  predicate Subset(a: NameSet, b: NameSet) {
    a.modules <= b.modules && a.libs <= b.libs
  }

  /** Membership is by name: two modules with one name are indistinguishable. */
  lemma SameNameModules(s: NameSet, m1: Module, m2: Module)
    requires m1.name == m2.name
    ensures ContainsModule(s, Some(m1)) == ContainsModule(s, Some(m2))
    ensures AddModule(s, Some(m1)) == AddModule(s, Some(m2))
    ensures RemoveModule(s, Some(m1)) == RemoveModule(s, Some(m2))
  {
  }

  /** Membership is by name: two libraries with one name are indistinguishable. */
  lemma SameNameLibraries(s: NameSet, l1: Library, l2: Library)
    requires l1.name == l2.name
    ensures ContainsLibrary(s, Some(l1)) == ContainsLibrary(s, Some(l2))
    ensures AddLibrary(s, Some(l1)) == AddLibrary(s, Some(l2))
    ensures RemoveLibrary(s, Some(l1)) == RemoveLibrary(s, Some(l2))
  {
  }

  /** An unnamed library is never added and never contained, and removing it
      is a no-op; so no entry on it can ever be stored. */
  lemma NamelessLibraryIgnored(s: NameSet, l: Library, scope: Scope, exported: bool)
    requires l.name.None?
    ensures !ContainsLibrary(s, Some(l))
    ensures AddLibrary(s, Some(l)) == s && RemoveLibrary(s, Some(l)) == s
    ensures AddEntry(s, LibraryEntry(Some(l), scope, exported)) == s
    ensures !Contains(AddEntry(s, LibraryEntry(Some(l), scope, exported)), Some(LibraryEntry(Some(l), scope, exported)))
  {
  }

  /** Adding an entry is gated by removability but removing it is not: a
      named runtime library is not added, yet a present one is removed. */
  lemma RemoveEntryNotGated(s: NameSet, l: Library, exported: bool)
    requires l.name.Some? && l.name.value in s.libs
    ensures var e := LibraryEntry(Some(l), Runtime, exported);
      AddEntry(s, e) == s && Contains(s, Some(e)) && !Contains(RemoveEntry(s, e), Some(e))
  {
  }

  /** After adding a removable entry whose target has a key it is contained;
      after removing it again it is not. */
  lemma AddThenRemoveEntry(s: NameSet, e: OrderEntry)
    requires RemovableDependency(Some(e))
    requires ModuleKey(TargetModule(e)).Some? || LibraryKey(TargetLibrary(e)).Some?
    ensures Contains(AddEntry(s, e), Some(e))
    ensures !Contains(RemoveEntry(AddEntry(s, e), e), Some(e))
  {
  }

  /** `addDependencies(set)` is a union with the empty set as identity. */
  lemma UnionLaws(s: NameSet, t: NameSet)
    ensures AddAll(s, Empty) == s && AddAll(Empty, s) == s
    ensures Subset(s, AddAll(s, t)) && Subset(t, AddAll(s, t))
  {
  }

  /** `intersect` is idempotent, commutative, annihilated by the empty set,
      and lies inside both operands. */
  lemma IntersectLaws(a: NameSet, b: NameSet)
    ensures Intersect(a, a) == a
    ensures Intersect(a, b) == Intersect(b, a)
    ensures IsEmpty(Intersect(a, Empty))
    ensures Subset(Intersect(a, b), a) && Subset(Intersect(a, b), b)
  {
  }

  /** `equals` is equality of both name sets; `isEmpty` equality with a fresh set. */
  lemma EqualsIsValueEquality(s: NameSet, t: NameSet)
    ensures Equals(s, t) <==> s == t
    ensures IsEmpty(s) <==> s == Empty
  {
  }
}
