/** A value that may be absent: a nil reference, or no action bound to a key. */
module Wrappers {
  datatype Option<T> = None | Some(value: T)
}
