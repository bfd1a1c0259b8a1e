/** The optional value used for a parse that finds no number. */
module Wrappers {
  datatype Option<+T> = None | Some(value: T)
}
