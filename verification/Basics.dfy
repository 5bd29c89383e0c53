/** Types that every table of the model shares. */
module Basics {

  /** Primary keys and foreign keys: opaque strings compared by equality. */
  type Id = string

  /** A nullable column, or an optional field of a request. */
  datatype Option<+T> = None | Some(value: T) {

    /** The value, or `default` when there is none. */
    function GetOr(default: T): (r: T)
      ensures this.Some? ==> r == this.value
      ensures this.None? ==> r == default
    {
      match this
      case Some(v) => v
      case None => default
    }
  }

  /** A field of a request: left out, sent as null, or sent with a value. */
  datatype Sent<+T> = Absent | Null | Value(value: T) {

    /** The value sent, or `default` when none is. */
    function GetOr(default: T): T {
      match this
      case Value(v) => v
      case _ => default
    }

    /** What a nullable column holds after the field has been written to it. */
    function Over(column: Option<T>): Option<T> {
      match this
      case Absent => column
      case Null => None
      case Value(v) => Some(v)
    }
  }
}
