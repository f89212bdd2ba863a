/** Small failure-carrying datatypes shared by the rest of the model.
    `Option` stands for a JavaScript value that may be `undefined`/`null`,
    `Result` for a computation that may throw. */
module Wrappers {

  datatype Option<+T> = None | Some(value: T) {
    /** The value, or `default` when absent (JavaScript's `x ?? default`). */
    function GetOr(default: T): T {
      match this
      case Some(v) => v
      case None => default
    }
  }

  datatype Result<+R, +E> = Success(value: R) | Failure(error: E)
}
