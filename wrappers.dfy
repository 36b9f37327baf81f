/** The optional value used for JavaScript's null/undefined in the game state. */
module Wrappers {
  datatype Option<T> = None | Some(value: T)
}
