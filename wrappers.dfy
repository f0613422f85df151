/** Failure-carrying values shared by the other modules. */
module Wrappers {

  /** A value that may be absent, as a dictionary key that may be missing. */
  datatype Option<+T> = None | Some(value: T)

  /** Either a result or the error that replaced it. */
  datatype Result<+T, +E> = Ok(value: T) | Err(error: E)
}
