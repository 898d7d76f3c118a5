/** The optional value used where PHP returns null. */
module Wrappers {

  datatype Option<+T> = None | Some(value: T)

}
