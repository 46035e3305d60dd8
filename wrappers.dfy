/** Option and Result, used for the source's "may fail" operations
    (a field that does not parse, a dictionary key that is missing). */
module Wrappers {

  datatype Option<+T> = None | Some(value: T)

  datatype Result<+R, +E> = Success(value: R) | Failure(error: E)
}
