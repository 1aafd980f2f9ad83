/** The optional value the geometry uses for a monitor's sub-rectangle and for
    a move that may be skipped. */
module Wrappers {

  datatype Option<+T> = None | Some(value: T)
}
