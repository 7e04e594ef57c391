/** Optional values and success-or-failure outcomes, shared by every decoder. */
module Results {

  /** A value that may be absent: a foreign call that can fail, or a missing key. */
  datatype Option<+T> = None | Some(value: T)

  /** The outcome of a decode: a value, or the error that escaped it. */
  datatype Result<+T, +E> = Ok(value: T) | Err(error: E)
}
