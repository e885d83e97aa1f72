/** The optional result of a lookup or of one enumeration step. */
module Wrappers {

  datatype Option<+T> = None | Some(value: T)

}
