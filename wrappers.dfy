/** Optional values: a nil pointer in the game is `None`. */
module Wrappers {
  datatype Option<+T> = None | Some(value: T)
}
