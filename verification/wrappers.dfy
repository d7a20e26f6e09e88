/** The optional value used throughout the model for JavaScript's `undefined`,
    `null` and `NaN` outcomes. */
module Wrappers {

  datatype Option<+T> = None | Some(value: T) {

    /** The contained value, or `default` when there is none. */
    function GetOr(default: T): T {
      match this
      case Some(v) => v
      case None => default
    }
  }
}
