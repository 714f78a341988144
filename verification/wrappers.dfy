/** The optional value used for "maybe a capture path". */
module Wrappers {

  datatype Option<+T> = None | Some(value: T)
}
