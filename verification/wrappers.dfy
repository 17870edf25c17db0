/** The optional value used for every nullable field of the source (`string?`, `DateTime?`). */
module Wrappers {

  datatype Option<+T> = None | Some(value: T) {

    /** The C# null-coalescing operator `x ?? default`. */
    function GetOr(default: T): T {
      match this
      case Some(v) => v
      case None => default
    }
  }
}
