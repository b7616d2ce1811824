/** The nullable values of the game (a winner that may be absent). */
module Wrappers {

  datatype Option<+T> = None | Some(value: T)

}
