/** The optional value used where the Python code returns a value or None / -1. */
module Wrappers {
  datatype Option<+T> = None | Some(value: T)
}
