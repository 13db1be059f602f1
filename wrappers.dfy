/** Failure-carrying results shared by the other modules. */
module Wrappers {

  datatype Option<+T> = None | Some(value: T)

  /** A value, or the error that a JavaScript `throw` would have raised instead. */
  datatype Result<+T, +E> = Ok(value: T) | Err(error: E)
}
