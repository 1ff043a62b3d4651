/** Failure-carrying values used across the model. */
module Options {

  /** A value that may be absent, as Python's `None` or an exhausted iterator. */
  datatype Option<+T> = None | Some(value: T)

  /** The outcome of an action that can raise an exception. */
  datatype Result<+T, +E> = Success(value: T) | Failure(error: E)
}
