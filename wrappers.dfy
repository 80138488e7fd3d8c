/** The optional value used for the empty-tile reference, which the game clears once it is won. */
module Wrappers {
  datatype Option<+T> = None | Some(value: T)
}
