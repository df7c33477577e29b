/** Optional values and success/failure results, used for JavaScript `undefined`
    lookups and for the outcomes of remote calls. */
module Wrappers {

  datatype Option<+T> = None | Some(value: T)

  datatype Result<+R, +E> = Success(value: R) | Failure(error: E)
}
