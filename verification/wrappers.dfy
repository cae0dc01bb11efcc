/** The optional value held by one slot of the ring buffer. */
module Wrappers {

  /** A slot either holds a value (`Some`) or has never been written (`None`). */
  datatype Option<+T> = None | Some(value: T)
}
