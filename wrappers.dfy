/** The nullable values of the game: a column's lowest playable row and the end condition are `null` when absent. */
module Wrappers {

  datatype Option<+T> = None | Some(value: T)
}
