/** Failure-carrying result types used by the parser and the financing formula. */
module Wrappers {

  /** A value that may be absent: the parser's answer to a string it cannot read. */
  datatype Option<+T> = None | Some(value: T)

  /** A value or the error that stopped its computation. */
  datatype Result<+R, +E> = Success(value: R) | Failure(error: E)
}
