module Wrappers {
  datatype Option<+T> = None | Some(value: T)

  /** A present pair is the pair of its two components. */
  lemma SomePair<A, B>(x: Option<(A, B)>)
    requires x.Some?
    ensures x == Some((x.value.0, x.value.1))
  {
  }
}
