/** The optional value used for the parent link of a search node and for the
    solver's `solution` field, both of which are `None` in Solver.py until set. */
module Wrappers {

  datatype Option<+T> = None | Some(value: T)
}
