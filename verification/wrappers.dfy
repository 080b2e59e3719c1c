/** The optional value used wherever the Python code returns or stores "nothing":
    a missing dictionary key, an empty CSV cell, an `int()` that raises. */
module Wrappers {

  datatype Option<+T> = None | Some(value: T)
}
