/** The optional value used where the source returns a nullable result or throws. */
module Wrappers {
  datatype Option<+T> = None | Some(value: T)
}
