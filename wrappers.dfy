/** Option and Result, used for dictionary lookups that may miss and for the
    exceptions the environment lets escape. */
module Wrappers {

  datatype Option<+T> = None | Some(value: T)

  datatype Result<+R, +E> = Success(value: R) | Failure(error: E)
}
