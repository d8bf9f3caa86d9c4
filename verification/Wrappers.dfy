/** A value that may be missing: a null pointer, or an outcome that does not arise. */
module Wrappers {
  datatype Option<+T> = None | Some(value: T)
}
