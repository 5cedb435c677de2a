/** `RemoveModulesModel`: a name-keyed result map that refuses to store
    `null` or empty sets, so that being empty means having no key. */
module RemoveModules {
  import opened Wrappers
  import opened ProjectModel
  import NameSet

  /** The map, ordered by name in the source (a `TreeMap`). */
  datatype RemoveModulesModel = RemoveModulesModel(sets: map<string, NameSet.NameSet>)

  /** A freshly constructed model. */
  const Empty: RemoveModulesModel := RemoveModulesModel(map[])

  /** What the model says about a name, reading an absent key as an empty set. */
  function Lookup(d: RemoveModulesModel, name: string): NameSet.NameSet {
    if name in d.sets then d.sets[name] else NameSet.Empty
  }

  /** The invariant the insertion guard keeps: no stored set is empty. */
  predicate Valid(d: RemoveModulesModel) {
    forall n | n in d.sets :: !NameSet.IsEmpty(d.sets[n])
  }

  /** `addRemoves(m, s)`: a `null` or empty `s` is ignored; otherwise it is
      stored under `m`'s name, replacing any earlier set. */
  function AddRemoves(d: RemoveModulesModel, m: Module, s: Option<NameSet.NameSet>): (r: RemoveModulesModel)
    ensures s.None? || NameSet.IsEmpty(s.value) ==> r == d
    ensures s.Some? && !NameSet.IsEmpty(s.value) ==> ForModule(r, m) == s
    ensures forall n :: n != m.name ==> (n in r.sets <==> n in d.sets) && (n in d.sets ==> r.sets[n] == d.sets[n])
    ensures Valid(d) ==> Valid(r)
  {
    if s.None? || NameSet.IsEmpty(s.value) then d
    else RemoveModulesModel(d.sets[m.name := s.value])
  }

  /** `addAllRemoves(other)`: keeps every key of both; the argument wins on
      a clash. */
  function AddAllRemoves(d: RemoveModulesModel, other: RemoveModulesModel): (r: RemoveModulesModel)
    ensures r.sets.Keys == d.sets.Keys + other.sets.Keys
    ensures forall n :: n in other.sets ==> r.sets[n] == other.sets[n]
    ensures forall n :: n in d.sets && n !in other.sets ==> r.sets[n] == d.sets[n]
    ensures Valid(d) && Valid(other) ==> Valid(r)
  {
    RemoveModulesModel(d.sets + other.sets)
  }

  /** `forModule(m)`: the set stored under `m`'s name, or `null`. */
  function ForModule(d: RemoveModulesModel, m: Module): (r: Option<NameSet.NameSet>)
    ensures r.GetOr(NameSet.Empty) == Lookup(d, m.name)
    ensures Valid(d) ==> (r.None? <==> NameSet.IsEmpty(Lookup(d, m.name)))
  {
    if m.name in d.sets then Some(d.sets[m.name]) else None
  }

  /** `isEmpty()`: no key is stored; with the insertion guard this is "no
      module has anything to remove". */
  function IsEmpty(d: RemoveModulesModel): (r: bool)
    ensures Valid(d) ==> (r <==> forall n :: NameSet.IsEmpty(Lookup(d, n)))
  {
    if Valid(d) then IsEmptyMeaning(d); d.sets == map[]
    else d.sets == map[]
  }

  /** Under the invariant, an empty map is exactly one with no candidates. */
  lemma IsEmptyMeaning(d: RemoveModulesModel)
    requires Valid(d)
    ensures d.sets == map[] <==> forall n :: NameSet.IsEmpty(Lookup(d, n))
  {
    if d.sets != map[] {
      var n :| n in d.sets;
      assert !NameSet.IsEmpty(Lookup(d, n));
    }
  }
}
