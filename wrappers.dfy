/** Small shared datatypes. */
module Wrappers {

  /** A value that may be missing: JavaScript's `null`/`undefined` alternative. */
  datatype Option<+T> = None | Some(value: T)
}
