/** The optional value used for the entries of a neighbourhood: the source's
    `false` placeholder for an off-board neighbour becomes `None`. */
module Wrappers {
  datatype Option<+T> = None | Some(value: T)
}
