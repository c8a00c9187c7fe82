/** Option and Result values for absent nodes and thrown errors. */
module Wrappers {

  /** A parse rule either produces a node or fails (the generated parser returns `null`). */
  datatype Option<+T> = None | Some(value: T)

  /** A call that returns a value or throws an `Error` carrying a message. */
  datatype Result<+T, +E> = Success(value: T) | Failure(error: E)
}
