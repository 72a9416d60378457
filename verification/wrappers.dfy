/** The optional value used wherever the source has a null, an undefined or a missing JSON key. */
module Wrappers {

  datatype Option<+T> = None | Some(value: T)
}
