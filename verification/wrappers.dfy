/** The optional value used where the Go code has a nil reference or a panic. */
module Wrappers {

  datatype Option<+T> = None | Some(value: T)

}
