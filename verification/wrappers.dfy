/** The optional value used wherever the plugin yields `undefined` instead of a value. */
module Wrappers {

  /** `None` stands for JavaScript's `undefined` (or a swallowed exception). */
  datatype Option<+T> = None | Some(value: T) {

    /** The held value, or `default` in place of `undefined`. */
    function GetOr(default: T): T {
      match this
      case Some(v) => v
      case None => default
    }
  }
}
