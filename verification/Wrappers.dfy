/** The one optional value used throughout: the source's `null` and `undefined`. */
module Wrappers {
  datatype Option<+T> = None | Some(value: T)
}
