/** The older result map (`ModulesDependencies` directly under `src/com`):
    module NAME to name-keyed edge set, with overwrite on insertion. */
module NamedModulesDeps {
  import opened Wrappers
  import opened ProjectModel
  import NameSet
  import SetFacts

  /** The map, ordered by name in the source (a `TreeMap`). */
  datatype ModulesDependencies = ModulesDependencies(sets: map<string, NameSet.NameSet>)

  /** A freshly constructed map. */
  const Empty: ModulesDependencies := ModulesDependencies(map[])

  /** What the map says about a name, reading an absent key as an empty set. */
  function Lookup(d: ModulesDependencies, name: string): NameSet.NameSet {
    if name in d.sets then d.sets[name] else NameSet.Empty
  }

  /** `addRemoves(m, s)`: stores `s` under `m`'s name, replacing whatever was
      there (no merge), even when `s` is empty. */
  function AddRemoves(d: ModulesDependencies, m: Module, s: NameSet.NameSet): (r: ModulesDependencies)
    ensures ForModule(r, m) == Some(s)
    ensures forall n :: n != m.name ==> (n in r.sets <==> n in d.sets) && (n in d.sets ==> r.sets[n] == d.sets[n])
  {
    ModulesDependencies(d.sets[m.name := s])
  }

  /** `addAllRemoves(other)`: keeps every key of both maps; on a clash the
      argument's set wins. */
  function AddAllRemoves(d: ModulesDependencies, other: ModulesDependencies): (r: ModulesDependencies)
    ensures r.sets.Keys == d.sets.Keys + other.sets.Keys
    ensures forall n :: n in other.sets ==> r.sets[n] == other.sets[n]
    ensures forall n :: n in d.sets && n !in other.sets ==> r.sets[n] == d.sets[n]
  {
    ModulesDependencies(d.sets + other.sets)
  }

  /** `forModule(m)`: the set stored under `m`'s name, or `null`; modules
      sharing a name get the same answer. */
  function ForModule(d: ModulesDependencies, m: Module): (r: Option<NameSet.NameSet>)
    ensures r.GetOr(NameSet.Empty) == Lookup(d, m.name)
    ensures r.Some? <==> m.name in d.sets
  {
    if m.name in d.sets then Some(d.sets[m.name]) else None
  }

  /** `isEmpty()`: the map is empty or every stored set is. */
  function IsEmpty(d: ModulesDependencies): (r: bool)
    ensures r <==> forall n :: NameSet.IsEmpty(Lookup(d, n))
  {
    IsEmptyMeaning(d);
    |d.sets| == 0 || forall n | n in d.sets :: NameSet.IsEmpty(d.sets[n])
  }

  /** The walk over stored sets in `isEmpty` judges every name's lookup. */
  lemma IsEmptyMeaning(d: ModulesDependencies)
    ensures (|d.sets| == 0 || forall n | n in d.sets :: NameSet.IsEmpty(d.sets[n]))
        <==> forall n :: NameSet.IsEmpty(Lookup(d, n))
  {
    forall n | n in d.sets
      ensures Lookup(d, n) == d.sets[n]
    {
    }
  }

  /** The per-key test of `equals`: both sides null-or-empty, or both present
      and equal. */
  predicate Agree(x: Option<NameSet.NameSet>, y: Option<NameSet.NameSet>) {
    ((x.None? || NameSet.IsEmpty(x.value)) && (y.None? || NameSet.IsEmpty(y.value)))
    || (x.Some? && y.Some? && NameSet.Equals(x.value, y.value))
  }

  /** The stored set under a name, or `null`. */
  function Get(d: ModulesDependencies, name: string): Option<NameSet.NameSet> {
    if name in d.sets then Some(d.sets[name]) else None
  }

  /** `equals(Object)`: equality up to reading absent keys as empty sets. */
  function Equals(a: ModulesDependencies, b: ModulesDependencies): (r: bool)
    ensures r <==> forall n :: Lookup(a, n) == Lookup(b, n)
  {
    EqualsMeaning(a, b);
    forall n | n in a.sets.Keys + b.sets.Keys :: Agree(Get(a, n), Get(b, n))
  }

  /** The key walk of `equals` judges every name's lookup. */
  lemma EqualsMeaning(a: ModulesDependencies, b: ModulesDependencies)
    ensures (forall n | n in a.sets.Keys + b.sets.Keys :: Agree(Get(a, n), Get(b, n)))
        <==> forall n :: Lookup(a, n) == Lookup(b, n)
  {
    forall n
      ensures Agree(Get(a, n), Get(b, n)) <==> Lookup(a, n) == Lookup(b, n)
    {
      NameSet.EqualsIsValueEquality(Lookup(a, n), Lookup(b, n));
      NameSet.EqualsIsValueEquality(Lookup(a, n), NameSet.Empty);
      NameSet.EqualsIsValueEquality(Lookup(b, n), NameSet.Empty);
    }
  }

  /** Storing an empty set is invisible to `equals` and `isEmpty` when the
      name had nothing recorded; the last `addRemoves` for a name wins. */
  lemma EmptyStoreInvisible(d: ModulesDependencies, m: Module, s1: NameSet.NameSet, s2: NameSet.NameSet)
    ensures NameSet.IsEmpty(Lookup(d, m.name)) ==> Equals(AddRemoves(d, m, NameSet.Empty), d)
    ensures NameSet.IsEmpty(Lookup(d, m.name)) ==> (IsEmpty(AddRemoves(d, m, NameSet.Empty)) <==> IsEmpty(d))
    ensures AddRemoves(AddRemoves(d, m, s1), m, s2) == AddRemoves(d, m, s2)
  {
    var e := AddRemoves(d, m, NameSet.Empty);
    NameSet.EqualsIsValueEquality(Lookup(d, m.name), NameSet.Empty);
    assert forall n :: n != m.name ==> Lookup(e, n) == Lookup(d, n);
    if NameSet.IsEmpty(Lookup(d, m.name)) {
      assert forall n :: Lookup(e, n) == Lookup(d, n);
    }
  }
}
