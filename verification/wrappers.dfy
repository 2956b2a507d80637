/** The optional value used throughout the model: `None` stands for JavaScript's
    `undefined` (a missing key, a missing request field) or for a `null` result. */
module Wrappers {
  datatype Option<+T> = None | Some(value: T) {
    function GetOr(default: T): T {
      match this
      case Some(v) => v
      case None => default
    }
  }
}
