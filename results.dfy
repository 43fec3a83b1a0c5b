/** Optional values and results with an error value, shared by every module. */
module Results {

  /** A value that may be absent (a Go pointer that may be nil). */
  datatype Option<+T> = None | Some(value: T)

  /** The outcome of an operation that can fail with an error value. */
  datatype Result<+T, +E> = Success(value: T) | Failure(error: E)
}
