/** Failure-compatible wrappers used by the ORCA parser model. */
module Wrappers {

  /** An optional value: Python's `Optional[...]` arguments and "no match" results. */
  datatype Option<+T> = None | Some(value: T)

  /** The outcome of an operation that either returns a value or raises an error. */
  datatype Result<+T, +E> = Success(value: T) | Failure(error: E)
}
