/** Failure-carrying wrappers used across the model. */
module Results {

  /** A value that may be absent (a timestamp that did not parse). */
  datatype Option<T> = None | Some(value: T)

  /** Either a value or the error that stopped the computation. */
  datatype Result<T, E> = Success(value: T) | Failure(error: E)
}
