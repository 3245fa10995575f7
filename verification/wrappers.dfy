/** Failure-compatible wrappers used across the model: Python's `Optional`
    and the distinction between a returned value and a raised exception. */
module Wrappers {

  /** A value that may be absent (`None` in Python). */
  datatype Option<+T> = None | Some(value: T)

  /** A returned value, or the exception a call raises instead. */
  datatype Result<+R, +E> = Success(value: R) | Failure(error: E)
}
