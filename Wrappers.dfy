/** Option and Result, for the "absent" answers and error outcomes of the read selection. */
module Wrappers {

  datatype Option<+T> = None | Some(value: T)

  datatype Result<+R, +E> = Success(value: R) | Failure(error: E)
}
