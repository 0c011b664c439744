/** A value that may be absent, as in `Option`. */
module Wrappers {
  datatype Option<+T> = None | Some(value: T)
}
