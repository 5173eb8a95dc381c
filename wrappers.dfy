/** The `Option` type shared by the other modules. */
module Wrappers {

  /** A value that may be absent (a missing query parameter, a failed parse). */
  datatype Option<+T> = None | Some(value: T)
}
