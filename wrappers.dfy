/** Small helper datatypes shared by the other modules. */
module Wrappers {

  /** A value that may be absent: `None` stands for Java's `null`, or for a
      lookup that would have thrown on a null reference. */
  datatype Option<+T> = None | Some(value: T)
}
