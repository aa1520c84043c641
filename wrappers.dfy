/** The usual optional value, used for "no match" and "pattern refused". */
module Wrappers {
  datatype Option<+T> = None | Some(value: T)
}
