/** The optional-value datatype shared by the other modules. */
module Wrappers {

  /** A value that may be missing: JavaScript's `undefined`, a failed parse. */
  datatype Option<+T> = None | Some(value: T)
}
