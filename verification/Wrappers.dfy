/** A value that may be absent; stands for the source's exceptions. */
module Wrappers {
  datatype Option<+T> = None | Some(value: T)
}
