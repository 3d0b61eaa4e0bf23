/** The optional value used where the Java code has an absent result. */
module Wrappers {
  datatype Option<+T> = None | Some(value: T)
}
