/** The optional value used wherever the source has `undefined`, `null` or a failed call. */
module Wrappers {
  datatype Option<+T> = None | Some(value: T)
}
