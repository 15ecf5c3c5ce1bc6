/** Failure-carrying datatypes shared by the pool and the dispatch loop. */
module Wrappers {

  /** A possibly-absent value; `None` plays the role of a null pointer. */
  datatype Option<+T> = None | Some(value: T)

  /** The outcome of a fallible construction: a value or an error. */
  datatype Result<+T, +E> = Ok(value: T) | Err(error: E)
}
