/** The usual optional value, standing for a Go value that may be nil. */
module Wrappers {

  datatype Option<+T> = None | Some(value: T)
}
