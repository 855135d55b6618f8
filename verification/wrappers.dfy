/** Optional values and fallible results, used wherever the source returns
    `None` or raises instead of producing a value. */
module Wrappers {

  datatype Option<+T> = None | Some(value: T)

  /** Success carries a value; Failure names what went wrong. */
  datatype Result<+R, +E> = Success(value: R) | Failure(error: E)
}
