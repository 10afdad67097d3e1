/** Optional values and results, the shapes Go expresses with nil and with an
    extra error return. */
module Wrappers {

  datatype Option<+T> = None | Some(value: T)

  datatype Result<+R, +E> = Success(value: R) | Failure(error: E)
}
