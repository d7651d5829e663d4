/** The optional value shared by the modules of this model. */
module Wrappers {

  /** A value that may be absent, like Python's `None`-or-value results. */
  datatype Option<+T> = None | Some(value: T)
}
