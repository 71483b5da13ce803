/** The optional-value datatype shared by the registry and the client pool. */
module Wrappers {

  /** A value that may be absent: Python's `None` versus an actual object. */
  datatype Option<+T> = None | Some(value: T) {

    /** The value, or `default` when there is none (Python's `dict.get(key, default)`). */
    function GetOr(default: T): T {
      match this
      case Some(v) => v
      case None => default
    }
  }
}
