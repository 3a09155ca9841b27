/** The conventional Some/None datatype, used where the Go code panics or
    returns a nil error. */
module Wrappers {
  datatype Option<+T> = None | Some(value: T)
}
