/** The optional value used where the Ruby code works with `nil`. */
module Wrappers {
  datatype Option<+T> = None | Some(value: T)
}
