/** Failure-carrying values shared by every module of the model. */
module Results {

  /** A value that may be absent, as Go's `(T, bool)` pairs report it. */
  datatype Option<+T> = None | Some(value: T)

  /** A value or an error, as Go's `(T, error)` pairs report it. */
  datatype Result<+T, +E> = Ok(value: T) | Err(error: E)
}
