/** The optional value used for nullable table columns and absent DOM elements. */
module Wrappers {
  datatype Option<+T> = None | Some(value: T)
}
