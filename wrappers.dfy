/** A reference that may be null, as a value. */
module Wrappers {

  datatype Option<+T> = None | Some(value: T)
}
