/** Option and Result types shared by the other modules. */
module Wrappers {

  /** An optional value: a missing attribute or an unset execution count. */
  datatype Option<+T> = None | Some(value: T)

  /** The result of an operation that can fail with an error of type E. */
  datatype Result<+T, +E> = Success(value: T) | Failure(error: E)
}
