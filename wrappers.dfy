/** The optional value used for Java's nullable references (an empty cell, an unset
    last destination). */
module Wrappers {
  datatype Option<+T> = None | Some(value: T)
}
