/** Failure-carrying wrappers shared by the other modules. */
module Results {

  /** An optional value: the absence of an error, or of a fresh balance. */
  datatype Option<+T> = None | Some(value: T)

  /** The outcome of a Go call that returns `(value, error)`. */
  datatype Result<+R, +E> = Success(value: R) | Failure(error: E)
}
