/** Absence and failure values shared by the modules of this model. */
module Results {

  /** A value that may be missing: Go's nil pointer with a nil error. */
  datatype Option<+T> = None | Some(value: T)

  /** A value or the error that replaced it: Go's (value, error) pair. */
  datatype Result<+T, +E> = Ok(value: T) | Err(error: E)
}
