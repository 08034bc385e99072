/** Failure-carrying wrappers used for the source's "no match" and thrown-error paths. */
module Wrappers {

  /** A value that may be absent: a regex that did not match, a JSON field that is undefined. */
  datatype Option<+T> = None | Some(value: T)

  /** The outcome of an operation that either succeeds with a value or throws an error. */
  datatype Result<+R, +E> = Success(value: R) | Failure(error: E)
}
