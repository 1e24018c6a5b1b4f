/** A value that may be absent: the result of a search that can fail. */
module Wrappers {
  datatype Option<+T> = None | Some(value: T)
}
