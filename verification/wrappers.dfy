/** The optional value the solver returns: a filled grid, or "no solution". */
module Wrappers {

  datatype Option<+T> = None | Some(value: T)
}
