/** Failure-compatible wrappers used for the sentinel and the error path. */
module Wrappers {

  /** None stands where the source keeps the floating `Infinity` sentinel. */
  datatype Option<+T> = None | Some(value: T)

  datatype Result<+R, +E> = Success(value: R) | Failure(error: E)
}
