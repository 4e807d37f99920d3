/** The error path of operations that throw in the source. */
module Results {

  /** A value, or the message of the exception the source throws instead. */
  datatype Result<T> = Success(value: T) | Failure(error: string)
}
