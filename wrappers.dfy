/** A value that may be missing: an absent request field, a query that
    matched no document (`null` in JavaScript). */
module Wrappers {

  datatype Option<+T> = None | Some(value: T)
}
