/** The optional value used for operations that can fail (a read that throws). */
module Wrappers {

  datatype Option<+T> = None | Some(value: T)
}
