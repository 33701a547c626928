/** The optional value used for a missing registry entry or an absent neighbour link. */
module Wrappers {

  datatype Option<+T> = None | Some(value: T)
}
