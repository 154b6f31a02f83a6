/** The optional value used for Go's nil results and absent map entries. */
module Wrappers {
  datatype Option<+T> = None | Some(value: T)
}
