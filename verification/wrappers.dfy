/** Failure-compatible datatypes shared by every module of the model. */
module Wrappers {

  /** A value that may be absent: a nil pointer, a missing map key, an
      unset query parameter. */
  datatype Option<+T> = None | Some(value: T)

  /** The outcome of a step that either yields a value or stops with an error. */
  datatype Result<+T, +E> = Ok(value: T) | Err(error: E)
}
