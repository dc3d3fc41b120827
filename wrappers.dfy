/** The optional value used for JSON body fields that may be absent or null. */
module Wrappers {

  datatype Option<+T> = None | Some(value: T)
}
