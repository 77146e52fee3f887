/** Failure-carrying datatypes used by the parsers and handlers. */
module Wrappers {

  /** A value that may be absent: a failed parse, a missing row. */
  datatype Option<+T> = None | Some(value: T)

  /** Either a parsed value or the error outcome that ends a command early. */
  datatype Result<+R, +E> = Success(value: R) | Failure(error: E)
}
