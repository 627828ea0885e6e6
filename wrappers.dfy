/** Option and Result, the two failure-carrying types the parsers return. */
module Wrappers {

  datatype Option<+T> = None | Some(value: T)

  /** Either a parsed value or the reason the program would stop with a fatal error. */
  datatype Result<+T, +E> = Success(value: T) | Failure(error: E)
}
