/** The optional value used for operations of the tool that may fail. */
module Wrappers {

  datatype Option<+T> = None | Some(value: T)
}
