/** Option and Result, used by the route models. */
module Wrappers {

  /** A value that may be absent: a missing request field, a NaN parse, no shortfall. */
  datatype Option<+T> = None | Some(value: T)

  /** The outcome of a route handler: a payload on success, an error kind otherwise. */
  datatype Result<+R, +E> = Success(value: R) | Failure(error: E)
}
