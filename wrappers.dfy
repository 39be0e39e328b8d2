/** The optional value used for the current card: none before any deck is loaded. */
module Wrappers {
  datatype Option<+T> = None | Some(value: T)
}
