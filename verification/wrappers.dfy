/** Option and Result types used throughout the bracket model. */
module Wrappers {

  /** An optional value; the model of a nullable SQLite column. */
  datatype Option<+T> = None | Some(value: T)

  /** Either a value or the error that stopped the operation. */
  datatype Result<+R, +E> = Success(value: R) | Failure(error: E)
}
