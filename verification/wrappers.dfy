/** The optional value, used where Python's `None` or JavaScript's `undefined` appears. */
module Wrappers {

  datatype Option<+T> = None | Some(value: T) {

    /** Returns the value in Some, or `default` for a missing value (JavaScript's `x || default` on a value that is an array or undefined). */
    function GetOr(default: T): T {
      match this
      case Some(v) => v
      case None => default
    }
  }
}
