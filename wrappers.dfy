/** The outcome of an operation that can fail, in place of a raised exception. */
module Wrappers {

  datatype Result<+T, +E> = Success(value: T) | Failure(error: E)
}
