/** The optional-value datatype used where the editor's Python code relies on
    `dict.get`, on a search loop that may find nothing, or on a parse that may
    raise `ValueError`. */
module Wrappers {

  datatype Option<+T> = None | Some(value: T) {

    /** The value held, or `default` when there is none (Python's `d.get(k, default)`). */
    function GetOr(default: T): T {
      match this
      case Some(v) => v
      case None => default
    }
  }
}
