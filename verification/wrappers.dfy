/** The optional-value datatype shared by the other modules. */
module Wrappers {

  /** A value that may be missing: a Java `null`, or an operation that threw. */
  datatype Option<+T> = None | Some(value: T)
}
