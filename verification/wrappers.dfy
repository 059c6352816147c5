/** The optional result both solvers return: `None` when no solution is reported. */
module Wrappers {

  datatype Option<+T> = None | Some(value: T)
}
