/** The "value or nothing" result both solvers return (Python's `None`). */
module Wrappers {

  datatype Option<+T> = None | Some(value: T)

}
