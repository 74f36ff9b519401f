/** The optional value used where the script returns `null`. */
module Wrappers {

  datatype Option<+T> = None | Some(value: T)
}
