/** Optional values and fallible results. */
module Wrappers {
  datatype Option<T> = None | Some(value: T)

  datatype Result<T, E> = Ok(value: T) | Err(error: E)
}

/** Facts about sequences the loop proofs of this model call explicitly. */
module Sequences {
  /** Concatenation regroups; loop invariants of the form `acc == start + done` need this
    * step each time a piece is appended. */
  lemma AppendAssociative<T>(a: seq<T>, b: seq<T>, c: seq<T>)
    ensures a + b + c == a + (b + c)
  {
  }
}
