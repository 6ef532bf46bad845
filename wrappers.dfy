/** The optional-value datatype used throughout the model (JavaScript's `null` results). */
module Wrappers {

  datatype Option<+T> = None | Some(value: T)
}
