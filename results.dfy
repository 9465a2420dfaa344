/** Failure-compatible wrappers used throughout the model. */
module Results {

  /** A value that may be absent: a missing file, or a text Python's `int()` or `float()` refuses. */
  datatype Option<+T> = None | Some(value: T)

  /** The outcome of an operation that raises on bad input. */
  datatype Result<+T, +E> = Success(value: T) | Failure(error: E)
}
