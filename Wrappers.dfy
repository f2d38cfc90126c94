/** General helpers: optional values, used wherever the source gets back `None` or may fail, and a fact about sequences. */
module Wrappers {

  datatype Option<+T> = None | Some(value: T)

  /**
   * Concatenation regroups. Stated once as a lemma: proving it in place costs far more in a
   * context that holds the definitions of a decoder or of a whole handler.
   */
  lemma ConcatAssoc<T>(a: seq<T>, b: seq<T>, c: seq<T>)
    ensures a + b + c == a + (b + c)
  {
  }
}
