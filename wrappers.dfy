/** The optional value used for "no match" and "no readable page". */
module Wrappers {
  datatype Option<+T> = None | Some(value: T)
}
