/** A value that may be absent: JavaScript's `undefined` for a field or argument. */
module Wrappers {
  datatype Option<+T> = None | Some(value: T)
}
