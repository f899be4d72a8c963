/** Failure-carrying results shared by the converter modules. */
module Wrappers {

  datatype Option<+T> = None | Some(value: T)

  /** Outcome of a step that either produces a value or stops with an error. */
  datatype Result<+T, +E> = Ok(value: T) | Err(error: E)
}
