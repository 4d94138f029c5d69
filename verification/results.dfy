/** The outcome of an operation that either returns a value or raises an error. */
module Results {

  /** `Success` carries the returned value; `Failure` carries the raised error. */
  datatype Result<+T, +E> = Success(value: T) | Failure(error: E)
}
