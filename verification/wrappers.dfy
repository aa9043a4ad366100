/** The optional value used where the source leaves an out-parameter unwritten. */
module Wrappers {

  datatype Option<+T> = None | Some(value: T)
}
