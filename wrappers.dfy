/** Option and Result, for the program's error paths (a raised exception or
    an `exit()` after an error message becomes a failure value). */
module Wrappers {

  datatype Option<+T> = None | Some(value: T)

  datatype Result<+T, +E> = Success(value: T) | Failure(error: E)
}
