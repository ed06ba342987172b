/** Optional values and results that may carry an error, for the places where
    the mortgage engine takes an omitted argument or raises an exception. */
module Wrappers {

  /** An argument that may be omitted (Python's `None`). */
  datatype Option<+T> = None | Some(value: T)

  /** The outcome of an operation that either succeeds with a value or fails
      with an error. */
  datatype Result<+R, +E> = Success(value: R) | Failure(error: E)
}
