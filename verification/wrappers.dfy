/** Failure-carrying result types shared by the modules of this model. */
module Wrappers {

  /** A value that may be absent, as Python's `None`. */
  datatype Option<T> = None | Some(value: T)

  /** The outcome of an operation that either succeeds or raises. */
  datatype Result<T, E> = Ok(value: T) | Err(error: E)
}
