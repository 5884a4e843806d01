/** The optional value used for the results of Go calls that return an error. */
module Wrappers {

  datatype Option<+T> = None | Some(value: T)
}
