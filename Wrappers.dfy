/** Optional values and fallible results, used for `undefined` in the web
    client and for `(value, error)` pairs in the Go server. */
module Wrappers {

  datatype Option<+T> = None | Some(value: T)

  datatype Result<+R, +E> = Success(value: R) | Failure(error: E)
}
