/** A value that may be missing: an attribute or edge that an entry lacks, an operation that the code refuses or
    asserts against. And the law that the order of appending does not matter, which the solver has to be told. */
module Wrappers {
  datatype Option<+T> = None | Some(value: T)

  lemma Associate<T>(a: seq<T>, b: seq<T>, c: seq<T>)
    ensures a + b + c == a + (b + c)
  {
  }
}
