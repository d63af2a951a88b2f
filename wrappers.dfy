/** Option and Result, used for the source's optional arguments and its exceptions. */
module Wrappers {

  datatype Option<+T> = None | Some(value: T)

  /** A value, or the exception the source raises instead of producing it. */
  datatype Result<+R, +E> = Success(value: R) | Failure(error: E)
}
