/** Steps of reasoning about sequences and sets. */
module Collections {
  lemma Associative<T>(a: seq<T>, b: seq<T>, c: seq<T>)
    ensures a + b + c == a + (b + c)
  {
  }

  /** One element more has been dealt with. */
  lemma OneLess<T>(all: set<T>, rest: set<T>, x: T)
    requires rest <= all && x in rest
    ensures all - rest + {x} == all - (rest - {x}) && x !in all - rest
  {
  }
}
