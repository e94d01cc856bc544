// A value that may be absent: SQL NULL, or a query that found no row.
module Wrappers {
  datatype Option<+T> = None | Some(value: T)
}
