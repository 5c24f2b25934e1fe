/** The optional value shared by the other modules. */
module Wrappers {

  /** A value that may be absent: a missing file, a missing key, a line that does not match. */
  datatype Option<+T> = None | Some(value: T)
}
