/** Failure-carrying values used where the link checker's JavaScript would throw or yield nothing. */
module Wrappers {

  /** A value that may be absent. */
  datatype Option<T> = None | Some(value: T)

  /** A value, or the error the JavaScript code would raise instead. */
  datatype Result<T, E> = Success(value: T) | Failure(error: E)
}
