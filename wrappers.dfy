/** The optional value used where the source may produce `undefined`. */
module Wrappers {

  datatype Option<+T> = None | Some(value: T)

}
