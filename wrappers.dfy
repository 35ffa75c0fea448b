/** The success-or-failure wrapper used for the run's uncaught exceptions. */
module Wrappers {

  /** Either a value or the error that ended the computation. */
  datatype Result<+T, +E> = Success(value: T) | Failure(error: E)
}
