/** Failure-carrying return types: the model's stand-ins for a value that may be
    missing and for an operation that may raise. */
module Results {

  /** A value that may be absent, e.g. an AMOUNT text that does not convert to a number. */
  datatype Option<+T> = None | Some(value: T)

  /** The outcome of an operation that either produces a value or fails with an error. */
  datatype Result<+R, +E> = Success(value: R) | Failure(error: E)
}
