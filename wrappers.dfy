/** The optional value used for a board square that may or may not hold a piece. */
module Wrappers {

  datatype Option<+T> = None | Some(value: T)
}
