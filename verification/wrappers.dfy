/** Small failure-carrying datatypes shared by the model. */
module Wrappers {

  /** A value that may be absent; plays the role of JavaScript `null`. */
  datatype Option<+T> = None | Some(value: T) {

    /** Returns the wrapped value, or `default` when absent. */
    function GetOr(default: T): (r: T)
      ensures Some? ==> r == value
      ensures None? ==> r == default
    {
      match this
      case Some(v) => v
      case None => default
    }
  }
}
