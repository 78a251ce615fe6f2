/** The optional value used where the source holds a reference that may be unset. */
module Wrappers {

  datatype Option<+T> = None | Some(value: T)
}
