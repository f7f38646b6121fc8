/** Failure-carrying wrappers used by the enumeration model. */
module Wrappers {

  /** An argument that may be left out: `None` when the caller omitted it. */
  datatype Option<+T> = None | Some(value: T)

  /** The outcome of an operation that either succeeds with a value or throws an error. */
  datatype Result<+R, +E> = Success(value: R) | Failure(error: E)
}
