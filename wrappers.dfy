/** The optional value used where the server's JavaScript yields `undefined`. */
module Wrappers {

  datatype Option<+T> = None | Some(value: T)
}
