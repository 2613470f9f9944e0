/** The Some/None datatype used wherever the JavaScript code may see
    `null` or `undefined` (a missing cookie, a missing body field, a query
    that found nothing). */
module Wrappers {

  datatype Option<+T> = None | Some(value: T) {

    /** The wrapped value, or `default` when there is none (JavaScript's `x || default`). */
    function GetOr(default: T): T {
      match this
      case Some(v) => v
      case None => default
    }
  }
}
