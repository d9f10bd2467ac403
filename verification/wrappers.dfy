/** Failure-carrying values shared by the entity and controller models. */
module Wrappers {

  /** Java's Optional: a value or nothing. */
  datatype Option<+T> = None | Some(value: T)

  /** A handler outcome: a success value, or the typed error the handler throws. */
  datatype Result<+R, +E> = Success(value: R) | Failure(error: E)
}
