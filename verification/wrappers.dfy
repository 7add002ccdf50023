/** The optional value used wherever a Python call can raise or a file can be unreadable. */
module Wrappers {

  /** None where the source gets an exception or nothing; Some(value) otherwise. */
  datatype Option<+T> = None | Some(value: T)
}
