/** The optional value used where the JavaScript yields `undefined`. */
module Wrappers {

  datatype Option<+T> = None | Some(value: T)

}
