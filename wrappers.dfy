/** Option and Result, the two failure-carrying datatypes the model uses. */
module Wrappers {

  /** A value or nothing; `None` stands for the source's `null`. */
  datatype Option<T> = None | Some(value: T)

  /** A value or an error; `Failure` stands for a thrown exception. */
  datatype Result<T, E> = Success(value: T) | Failure(error: E)
}
