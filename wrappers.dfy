/** The optional value used for error messages and attribute values. */
module Wrappers {

  datatype Option<+T> = None | Some(value: T)

}
