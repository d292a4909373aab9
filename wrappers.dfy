/** The error-carrying result used wherever the Python code raises. */
module Wrappers {
  datatype Result<+T, +E> = Success(value: T) | Failure(error: E)
}
