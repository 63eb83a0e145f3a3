/** General-purpose wrapper types shared by the other modules. */
module Wrappers {
  /** A value that may be absent. */
  datatype Option<+T> = None | Some(value: T)
}
