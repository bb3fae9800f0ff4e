/** Failure-compatible helper datatypes shared by every module of the model:
    `Option` stands for a nullable reference, `Result` for a call that may throw. */
module Wrappers {

  /** A nullable value: `None` is the source's `null`. */
  datatype Option<+T> = None | Some(value: T) {

    /** The value, or `default` when absent (the source's `??` operator). */
    function GetOr(default: T): T {
      match this
      case Some(v) => v
      case None => default
    }
  }

  /** A value or the exception a call would throw. */
  datatype Result<+R, +E> = Success(value: R) | Failure(error: E)

  /** A check that either passes or names the exception it throws. */
  datatype Outcome<+E> = Pass | Fail(error: E)

  /** `a ?? b` on two nullable values. */
  function OrElse<T>(a: Option<T>, b: Option<T>): Option<T> {
    if a.Some? then a else b
  }
}
