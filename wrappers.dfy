/** Option and Result, for the values the source leaves `undefined` or `null`
    and for the one operation that throws. */
module Wrappers {

  datatype Option<T> = None | Some(value: T)

  datatype Result<T, E> = Success(value: T) | Failure(error: E)
}
