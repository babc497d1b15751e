/** Option, used where the source returns nil or a second `ok` result. */
module Wrappers {
  datatype Option<+T> = None | Some(value: T)
}
