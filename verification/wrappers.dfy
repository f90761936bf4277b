/** Failure-compatible result types shared by every module of the model. */
module Wrappers {

  /** A value that may be absent: a cache miss, an empty attribute slot. */
  datatype Option<+T> = None | Some(value: T)

  /** Either a value or the error a pyaff4 `CHECK` raises. */
  datatype Result<+R, +E> = Success(value: R) | Failure(error: E)
}
