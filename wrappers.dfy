/** The optional value used for request-body fields and nullable columns. */
module Wrappers {

  datatype Option<+T> = None | Some(value: T)
}
