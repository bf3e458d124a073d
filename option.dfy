/** The optional values of the game: a pending direction that may not be set,
    a vacated tail cell that may not exist. */
module Opt {

  datatype Option<T> = None | Some(value: T)
}
