/** Optional values and results with an error message: JavaScript's `null`
    for a missed lookup, and a thrown `Error` for a rejected call. */
module Wrappers {

  datatype Option<+T> = None | Some(value: T)

  datatype Result<+T> = Success(value: T) | Failure(error: string)
}
