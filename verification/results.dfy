/** Optional values and fallible results shared by every module of the model. */
module Results {

  /** A value that may be absent (PHP's `null`). */
  datatype Option<+T> = None | Some(value: T)

  /** The outcome of an operation that may throw. */
  datatype Result<+T, +E> = Ok(value: T) | Err(error: E)
}
