/** The optional value used where the source returns "something or nothing". */
module Wrappers {
  datatype Option<+T> = None | Some(value: T)
}
