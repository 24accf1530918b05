/** The optional-value datatype shared by the server and the client models. */
module Wrappers {

  datatype Option<+T> = None | Some(value: T)
}
