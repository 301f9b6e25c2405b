/** Option and Result, the two failure-carrying shapes the model uses. */
module Wrappers {

  /** An optional value: `None` stands for a JavaScript `undefined` field. */
  datatype Option<+T> = None | Some(value: T)

  /** The outcome of an operation that can fail with an error value. */
  datatype Result<+R, +E> = Success(value: R) | Failure(error: E)
}
