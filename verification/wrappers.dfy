/** A value that may be absent, standing for a possibly-null reference. */
module Wrappers {

  datatype Option<+T> = None | Some(value: T)
}
