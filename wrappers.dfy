/** The optional value used for Python's `None`. */
module Wrappers {

  datatype Option<T> = None | Some(value: T) {

    /** `x or default` for a value that is either `None` or present; other
        falsy values of `x` are not replaced */
    function GetOr(default: T): T {
      match this
      case Some(v) => v
      case None => default
    }
  }
}
