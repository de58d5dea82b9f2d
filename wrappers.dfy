/** A value that may be missing: a null cell of a table, a failed match. */
module Wrappers {

  datatype Option<+T> = None | Some(value: T)
}
