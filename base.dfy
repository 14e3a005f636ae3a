/** Failure-carrying wrappers shared by every module of the model. */
module Base {

  datatype Option<+T> = None | Some(value: T)

  /** A computation that either yields a value or fails the way a Python exception would. */
  datatype Result<+T, +E> = Ok(value: T) | Err(error: E)
}
