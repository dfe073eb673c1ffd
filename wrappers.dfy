/** Failure-carrying values for the operations that return nothing, a value, or null, or that throw. */
module Wrappers {

  /** A value or nothing: Java's nullable reference. */
  datatype Option<T> = None | Some(value: T)

  /** A value, or the exception an operation threw instead. */
  datatype Result<T, E> = Success(value: T) | Failure(error: E)

  /** A void operation that returned normally or threw. */
  datatype Outcome<E> = Pass | Fail(error: E)
}
