/** A value that may be missing, used where the source raises instead of returning. */
module Wrappers {
  datatype Option<T> = None | Some(value: T)
}
