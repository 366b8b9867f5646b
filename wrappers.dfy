/** Failure-compatible value wrappers used across the model: `Option` stands for
    JavaScript's `undefined`/`null` and Ruby's `nil`, `Result` for a call that
    either returns a value or raises. */
module Wrappers {

  datatype Option<+T> = None | Some(value: T) {
    /** The value, or `default` when there is none (JavaScript's `x || default`
        for values that are never falsy). */
    function GetOr(default: T): T {
      match this
      case Some(v) => v
      case None => default
    }
  }

  datatype Result<+R, +E> = Success(value: R) | Failure(error: E)
}
