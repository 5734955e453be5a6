/** Option, used where the source returns nil or an error. */
module Wrappers {

  datatype Option<+T> = None | Some(value: T)
}
