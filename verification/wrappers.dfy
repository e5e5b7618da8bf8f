/** The optional value of the JavaScript sources: a missing object field,
    `undefined` or `null` all become `None`. */
module Wrappers {

  datatype Option<+T> = None | Some(value: T) {

    /** The value, or `default` when absent (the `x || default` and
        `x ?? default` idioms of the sources). */
    function GetOr(default: T): T {
      match this
      case Some(v) => v
      case None => default
    }
  }
}
