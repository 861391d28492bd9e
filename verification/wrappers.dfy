/** Failure-carrying result types used in place of Java's null and checked exceptions. */
module Wrappers {

  /** `None` stands for a Java `null` reference. */
  datatype Option<+T> = None | Some(value: T)

  /** The value of a call that either returns normally or throws. */
  datatype Result<+R, +E> = Success(value: R) | Failure(error: E) {
    /** The value on success, `default` after a throw. */
    function GetOr(default: R): R {
      match this
      case Success(v) => v
      case Failure(_) => default
    }
  }

  /** The value of a `void` call that either returns or throws. */
  datatype Outcome<+E> = Pass | Fail(error: E)
}
