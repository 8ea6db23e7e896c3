/** Small value wrappers shared by every module of the model. */
module Common {

  /** A value that may be absent (Go's nil pointer, or a nil error). */
  datatype Option<+T> = None | Some(value: T)

  /** A computation that produced a value or failed with an error. */
  datatype Result<+T, +E> = Success(value: T) | Failure(error: E)
}
