/** Optional values and error-carrying results shared by every module. */
module Wrappers {

  /** A value that may be missing: a JavaScript `null`/`undefined` is `None`. */
  datatype Option<+T> = None | Some(value: T) {

    /** The value, or `default` when it is missing (the `x || default` idiom on objects). */
    function GetOr(default: T): T {
      match this
      case Some(v) => v
      case None => default
    }
  }

  /** The outcome of an operation that can be rejected with an error. */
  datatype Result<+R, +E> = Ok(value: R) | Err(error: E)

  /** A JavaScript number used as a condition: a missing value and 0 are falsy. */
  predicate TruthyNumber(t: Option<int>) {
    t.Some? && t.value != 0
  }
}
