/** Choosing from a non-empty set, for loops over hash sets and maps, which run in no particular order. */
module Sets {

  lemma {:induction false} EmptyWithoutElements<T>(s: set<T>)
    requires forall x :: x !in s
    ensures s == {}
  {
  }

  lemma {:induction false} HasElement<T>(s: set<T>)
    requires s != {}
    ensures exists x :: x in s
  {
    if !exists x :: x in s {
      EmptyWithoutElements(s);
    }
  }

  lemma {:induction false} Member<T>(s: set<T>) returns (x: T)
    requires s != {}
    ensures x in s
  {
    HasElement(s);
    x :| x in s;
  }

  method AnyOf<T(==)>(s: set<T>) returns (x: T)
    requires s != {}
    ensures x in s
  {
    HasElement(s);
    x :| x in s;
  }
}
