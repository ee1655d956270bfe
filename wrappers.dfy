/** An optional value: Ruby's `nil` or a present value. */
module Wrappers {
  datatype Option<+T> = None | Some(value: T)
}
