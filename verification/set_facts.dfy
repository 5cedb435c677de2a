/** Two facts about finite sets that the solver does not find unaided. */
module SetFacts {

  /** A set is empty iff it has no member. */
  lemma EmptyIffNoMember<T>(a: set<T>)
    ensures a == {} <==> forall x :: x !in a
  {
    if a != {} {
      var x :| x in a;
    }
  }

  /** Sets are equal iff they have the same members. */
  lemma SameMembers<T>(a: set<T>, b: set<T>)
    ensures a == b <==> forall x :: x in a <==> x in b
  {
    if forall x :: x in a <==> x in b {
      assert a == b;
    }
  }
}
