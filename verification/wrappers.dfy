/** The optional value returned by every scanner that may find nothing. */
module Wrappers {

  datatype Option<+T> = None | Some(value: T)
}
