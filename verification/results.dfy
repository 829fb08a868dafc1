/** Failure-carrying wrappers used across the model in place of Go's
    `(value, error)` pairs. */
module Results {

  /** An optional value, e.g. a random draw that may have failed. */
  datatype Option<+T> = None | Some(value: T)

  /** A value or the error that prevented computing it. */
  datatype Result<+T, +E> = Ok(value: T) | Err(error: E)
}
