/** Option and Result: the absent value and the error return of the JavaScript code. */
module Wrappers {

  /** `undefined`/`null` versus a present value. */
  datatype Option<+T> = None | Some(value: T) {
    function GetOr(default: T): T {
      match this
      case Some(v) => v
      case None => default
    }
  }

  /** A value or the error a promise rejects with (or an exception is thrown with). */
  datatype Result<+T, +E> = Ok(value: T) | Err(error: E)
}
