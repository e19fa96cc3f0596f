// Optional values, used for Go's (value, ok) results and for calls that may panic.
module Wrappers {
  datatype Option<+T> = None | Some(value: T)
}
