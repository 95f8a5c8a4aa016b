/** The Option datatype used for Java's nullable references. */
module Wrappers {

  /** `None` stands for a Java `null`, `Some(v)` for a present value. */
  datatype Option<+T> = None | Some(value: T)
}
