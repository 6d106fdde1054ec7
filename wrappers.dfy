/** The optional value used throughout the model (Swift's `T?`). */
module Wrappers {

  datatype Option<+T> = None | Some(value: T)
}
