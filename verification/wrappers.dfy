/** Small optional-value datatype shared by the other modules (Python's `None`). */
module Wrappers {

  /** `None` stands for Python's `None` / SQL `NULL`. */
  datatype Option<+T> = None | Some(value: T) {

    /** Returns the value in Some, or the given default when None */
    function GetOr(default: T): T {
      match this
      case Some(v) => v
      case None => default
    }
  }
}
