/** The current result map (`data/ModulesDependencies`): module (by identity)
    to edge set. It holds both the per-module usage found by the scan and the
    final removal candidates. Insertion merges, and an absent key reads as an
    empty set. */
module ModulesDeps {
  import opened Wrappers
  import opened ProjectModel
  import IdentitySet
  import SetFacts

  type EdgeSet = IdentitySet.LibOrModuleSet

  /** The map. `addAll` stores the caller's set object itself, so a later
      change to that object shows through the map; sets are values here. */
  datatype ModulesDependencies = ModulesDependencies(sets: map<Module, EdgeSet>)

  /** A freshly constructed map. */
  const Empty: ModulesDependencies := ModulesDependencies(map[])

  /** What the map says about `m`, reading an absent key as an empty set. */
  function Lookup(d: ModulesDependencies, m: Module): EdgeSet {
    if m in d.sets then d.sets[m] else IdentitySet.Empty
  }

  /** The invariant `addAll` keeps and `forModule` asserts: no stored set is empty. */
  predicate Valid(d: ModulesDependencies) {
    forall m | m in d.sets :: !IdentitySet.IsEmpty(d.sets[m])
  }

  /** `addAll(m, s)`: an empty `s` is ignored; otherwise `s` is stored for a
      new key and merged into the stored set of an existing one. No other
      module's entry changes. */
  function AddAll(d: ModulesDependencies, m: Module, s: EdgeSet): (r: ModulesDependencies)
    ensures IdentitySet.IsEmpty(s) ==> r == d
    ensures Lookup(r, m) == IdentitySet.AddAll(Lookup(d, m), s)
    ensures m in r.sets <==> m in d.sets || !IdentitySet.IsEmpty(s)
    ensures forall k :: k != m ==> (k in r.sets <==> k in d.sets) && (k in d.sets ==> r.sets[k] == d.sets[k])
    ensures Valid(d) ==> Valid(r)
  {
    if IdentitySet.IsEmpty(s) then
      IdentitySet.UnionLaws(Lookup(d, m), s);
      d
    else if m !in d.sets then
      IdentitySet.UnionLaws(s, s);
      ModulesDependencies(d.sets[m := s])
    else ModulesDependencies(d.sets[m := IdentitySet.AddAll(d.sets[m], s)])
  }

  /** `forModule(m)`: the stored set or `null`. Absent and empty read alike,
      and under the invariant `null` means exactly "nothing recorded". */
  function ForModule(d: ModulesDependencies, m: Module): (r: Option<EdgeSet>)
    ensures r.GetOr(IdentitySet.Empty) == Lookup(d, m)
    ensures Valid(d) ==> (r.None? <==> IdentitySet.IsEmpty(Lookup(d, m)))
  {
    if m in d.sets then Some(d.sets[m]) else None
  }

  /** `modules()`: the keys, i.e. the modules `forModule` answers for. */
  function Modules(d: ModulesDependencies): (r: set<Module>)
    ensures forall m :: m in r <==> ForModule(d, m).Some?
    ensures Valid(d) ==> forall m :: m in r <==> !IdentitySet.IsEmpty(Lookup(d, m))
  {
    d.sets.Keys
  }

  /** `isEmpty()`: the map is empty or every stored set is. */
  function IsEmpty(d: ModulesDependencies): (r: bool)
    ensures r <==> forall m :: IdentitySet.IsEmpty(Lookup(d, m))
    ensures Valid(d) ==> (r <==> d.sets == map[])
  {
    IsEmptyMeaning(d);
    |d.sets| == 0 || forall m | m in d.sets :: IdentitySet.IsEmpty(d.sets[m])
  }

  /** The walk over stored sets in `isEmpty` judges every module's lookup. */
  lemma IsEmptyMeaning(d: ModulesDependencies)
    ensures (|d.sets| == 0 || forall m | m in d.sets :: IdentitySet.IsEmpty(d.sets[m]))
        <==> forall m :: IdentitySet.IsEmpty(Lookup(d, m))
    ensures Valid(d) ==> ((forall m :: IdentitySet.IsEmpty(Lookup(d, m))) <==> d.sets == map[])
  {
    SetFacts.EmptyIffNoMember(d.sets.Keys);
    forall m | m in d.sets
      ensures Lookup(d, m) == d.sets[m]
    {
    }
    if d.sets != map[] {
      var k :| k in d.sets;
      assert Lookup(d, k) == d.sets[k];
    }
  }

  /** Is a possibly-`null` set `null` or empty? */
  predicate NullOrEmpty(s: Option<EdgeSet>) {
    s.None? || IdentitySet.IsEmpty(s.value)
  }

  /** The per-key test of `equals`: both sides null-or-empty, or both present
      and equal. */
  predicate Agree(x: Option<EdgeSet>, y: Option<EdgeSet>) {
    (NullOrEmpty(x) && NullOrEmpty(y)) || (x.Some? && y.Some? && IdentitySet.Equals(x.value, y.value))
  }

  /** `equals(Object)`: the keys of both maps are walked and compared with
      `Agree`; this is equality up to reading absent keys as empty sets. */
  function Equals(a: ModulesDependencies, b: ModulesDependencies): (r: bool)
    ensures r <==> forall m :: Lookup(a, m) == Lookup(b, m)
  {
    EqualsMeaning(a, b);
    forall m | m in a.sets.Keys + b.sets.Keys :: Agree(ForModule(a, m), ForModule(b, m))
  }

  /** The key walk of `equals` judges every module's lookup. */
  lemma EqualsMeaning(a: ModulesDependencies, b: ModulesDependencies)
    ensures (forall m | m in a.sets.Keys + b.sets.Keys :: Agree(ForModule(a, m), ForModule(b, m)))
        <==> forall m :: Lookup(a, m) == Lookup(b, m)
  {
    forall m
      ensures Agree(ForModule(a, m), ForModule(b, m)) <==> Lookup(a, m) == Lookup(b, m)
    {
      AgreeIsLookupEquality(a, b, m);
    }
  }

  /** `Agree` on a key is equality of what the two maps say about it. */
  lemma AgreeIsLookupEquality(a: ModulesDependencies, b: ModulesDependencies, m: Module)
    ensures Agree(ForModule(a, m), ForModule(b, m)) <==> Lookup(a, m) == Lookup(b, m)
  {
    IdentitySet.EqualsIsValueEquality(Lookup(a, m), Lookup(b, m));
    IdentitySet.EqualsIsValueEquality(Lookup(a, m), IdentitySet.Empty);
    IdentitySet.EqualsIsValueEquality(Lookup(b, m), IdentitySet.Empty);
  }

  /** `equals` is an equivalence: reflexive, symmetric (it walks the union of
      both key sets) and transitive. */
  lemma EqualsIsEquivalence(a: ModulesDependencies, b: ModulesDependencies, c: ModulesDependencies)
    ensures Equals(a, a)
    ensures Equals(a, b) <==> Equals(b, a)
    ensures Equals(a, b) && Equals(b, c) ==> Equals(a, c)
  {
  }

  /** A map is empty exactly when it equals a fresh map, and an entry holding
      an empty set changes neither. */
  lemma EmptyEntriesInvisible(d: ModulesDependencies, m: Module)
    ensures IsEmpty(d) <==> Equals(d, Empty)
    ensures Equals(ModulesDependencies(d.sets[m := IdentitySet.Empty]), ModulesDependencies(d.sets - {m}))
  {
    var e := ModulesDependencies(d.sets[m := IdentitySet.Empty]);
    var f := ModulesDependencies(d.sets - {m});
    assert forall k :: Lookup(e, k) == Lookup(f, k);
  }
}
