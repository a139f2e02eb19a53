/** A value that may be absent: Java's `null` for references that may be null. */
module Wrappers {

  datatype Option<+T> = None | Some(value: T)
}
