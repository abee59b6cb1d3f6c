/** Option and Result, the two failure-carrying shapes the route helpers need:
    `null` returns become `None`, an exception that escapes becomes `Failure`. */
module Wrappers {

  datatype Option<+T> = None | Some(value: T)

  datatype Result<+R, +E> = Success(value: R) | Failure(error: E)
}
