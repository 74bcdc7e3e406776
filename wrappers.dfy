// Optional values: a request field that is absent (undefined or null in the JSON body),
// a query parameter that does not parse as an integer, a nullable column.
module Wrappers {

  datatype Option<+T> = None | Some(value: T) {

    /** The SQL `COALESCE(this, fallback)`: the value when present, the fallback otherwise. */
    function GetOr(fallback: T): T {
      match this
      case Some(v) => v
      case None => fallback
    }
  }
}
