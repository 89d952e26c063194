/** The optional value returned by the slab's checked operations. */
module Wrappers {
  datatype Option<+T> = None | Some(value: T)
}
