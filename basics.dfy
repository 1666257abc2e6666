/** Small value types shared by the whole model. */
module Basics {

  /** A value that may be absent: a JavaScript `undefined`, or a query that found no row. */
  datatype Option<+T> = None | Some(value: T) {
    function GetOr(default: T): T {
      if Some? then value else default
    }
  }

  /** The outcome of one database statement: the row it returned, or the constraint that rejected it. */
  datatype Result<+T, +E> = Ok(value: T) | Err(error: E)

  /** JavaScript truthiness of an optional string field of a request: present and not empty. */
  predicate Truthy(field: Option<string>) {
    field.Some? && field.value != ""
  }
}
