/** The usual optional value, for scanners that may find no match. */
module Wrappers {
  datatype Option<+T> = None | Some(value: T)
}
