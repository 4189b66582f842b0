/** The optional value used for the session's timer handle. */
module Wrappers {

  datatype Option<+T> = None | Some(value: T)
}
