/** The optional value the Swift source writes as `T?`. */
module Wrappers {
  datatype Option<+T> = None | Some(value: T)
}
