/** Bytes, failure-carrying values and a fact of sequences, shared by the components. */
module Wrappers {

  type byte = x: int | 0 <= x < 256

  datatype Option<+T> = None | Some(value: T)

  /** The value of a call that the source ends with an error return or a raised exception. */
  datatype Result<+T, +E> = Ok(value: T) | Err(error: E)

  lemma EmptyFront<T>(s: seq<T>)
    ensures [] + s == s
  {
  }
}
