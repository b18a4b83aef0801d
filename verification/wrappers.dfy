/** Option and Result, shared by the modules of this model. */
module Wrappers {

  /** Ruby's `nil` versus a present value. */
  datatype Option<+T> = None | Some(value: T) {

    /** The value, or `default` when absent (Ruby's `x || default`). */
    function GetOr(default: T): (r: T) {
      match this
      case Some(v) => v
      case None => default
    }
  }

  /** The outcome of an operation that may raise: the new value, or the raised message. */
  datatype Result<+R, +E> = Success(value: R) | Failure(error: E)
}
