/** Option and Result: how the model writes JavaScript's `undefined`/`null`
    results and thrown errors. */
module Wrappers {

  /** `None` stands for a JavaScript `undefined` or `null` value. */
  datatype Option<+T> = None | Some(value: T) {
    function GetOr(default: T): T {
      match this
      case Some(v) => v
      case None => default
    }
  }

  /** `Failure` stands for an exception the source throws. */
  datatype Result<+R, +E> = Success(value: R) | Failure(error: E)
}
