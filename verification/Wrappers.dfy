/** An optional value: the source's `none`, `nil` and missing map entries. */
module Wrappers {
  datatype Option<+T> = None | Some(value: T)
}
