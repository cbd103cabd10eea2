/** Failure-compatible wrappers shared by the model's modules. */
module Wrappers {

  /** A value that may be absent: Java's nullable reference. */
  datatype Option<+T> = None | Some(value: T)

  /** A computation that either succeeds or ends in the error the source throws. */
  datatype Result<+R, +E> = Success(value: R) | Failure(error: E)
}
