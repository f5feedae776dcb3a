/** Failure-compatible wrappers used throughout the model: an optional value
    (a nullable column, a missing row) and a success-or-error outcome (the
    result of one request handler). */
module Wrappers {

  /** A value that may be absent: SQL NULL, Python `None`, a lookup miss. */
  datatype Option<+T> = None | Some(value: T)

  /** Either the value an operation produced or the error it failed with. */
  datatype Result<+R, +E> = Success(value: R) | Failure(error: E)
}
