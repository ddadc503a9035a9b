/** The optional-value datatype used throughout the model (a NULL pointer or a value). */
module Wrappers {
  datatype Option<+T> = None | Some(value: T)
}
