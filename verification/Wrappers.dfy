/** A value that may be missing: a null pointer, or a search that finds nothing. */
module Wrappers {
  datatype Option<+T> = None | Some(value: T)
}
