/** Small failure-carrying datatypes shared by the other modules. */
module Wrappers {

  /** A value that may be absent, such as an optional front-matter field. */
  datatype Option<+T> = None | Some(value: T)

  /** The outcome of an operation that either yields a value or fails with an error. */
  datatype Result<+T, +E> = Success(value: T) | Failure(error: E)
}
