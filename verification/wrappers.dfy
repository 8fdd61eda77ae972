/** A minimal optional-value type: C#'s nullable references (`int[]?`,
    `string?`, `DateOnly?`) and the success/failure of a parse are modelled
    with it. */
module Wrappers {

  datatype Option<+T> = None | Some(value: T) {

    /** The wrapped value, or `default` when there is none. */
    function GetOr(default: T): T {
      match this
      case Some(v) => v
      case None => default
    }
  }
}
