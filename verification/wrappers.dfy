/** Failure-carrying values shared by the other modules. */
module Wrappers {

  /** A value that may be absent (a missing file, an unfinished process). */
  datatype Option<+T> = None | Some(value: T)

  /** A computation that either produces a value or raises an error. */
  datatype Result<+R, +E> = Success(value: R) | Failure(error: E)
}
