/** The conventional optional value, used where the game code either
    produces something or takes its failure path. */
module Wrappers {

  datatype Option<T> = None | Some(value: T)
}
