/** The optional value used wherever the source has a nil pointer. */
module Wrappers {
  datatype Option<T> = None | Some(value: T)
}
