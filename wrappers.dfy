/** Plain result datatypes for the Java methods that either return or throw. */
module Wrappers {

  datatype Option<+T> = None | Some(value: T)

  /** The value a method returns, or the exception it throws. */
  datatype Result<+T, +E> = Success(value: T) | Failure(error: E)

  /** A void method that returns normally, or throws. */
  datatype Outcome<+E> = Pass | Fail(error: E)
}
