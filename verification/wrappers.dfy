/** Stand-in for a Java reference that may be null. */
module Wrappers {

  /** `None` is Java's `null`; `Some(v)` a present value. */
  datatype Option<+T> = None | Some(value: T)
}
