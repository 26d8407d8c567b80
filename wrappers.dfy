/** The optional-value datatype used where the program holds `None` or a value. */
module Wrappers {
  datatype Option<+T> = None | Some(value: T)
}
