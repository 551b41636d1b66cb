/** Option and Result, used throughout for Python's `None`/`colander.null`
    and for "returns a value or raises colander.Invalid". */
module Wrappers {

  datatype Option<+T> = None | Some(value: T)

  datatype Result<+R, +E> = Success(value: R) | Failure(error: E)
}
