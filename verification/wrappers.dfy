/** The optional value used across the model for JavaScript's `null` / `undefined`. */
module Wrappers {

  /** `None` stands for a missing (null or undefined) value, `Some(v)` for a present one. */
  datatype Option<+T> = None | Some(value: T) {

    /** Returns the value in `Some`, or `default` when missing. */
    function GetOr(default: T): T {
      match this
      case Some(v) => v
      case None => default
    }
  }
}
