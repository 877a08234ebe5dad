/** The optional-value datatype shared by the other modules. */
module Wrappers {

  /** A value that may be absent: Python's `None`, a JavaScript `undefined` lookup. */
  datatype Option<+T> = None | Some(value: T) {

    /** The wrapped value, or `default` when absent. */
    function GetOr(default: T): T {
      match this
      case Some(v) => v
      case None => default
    }
  }
}
