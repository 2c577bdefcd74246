/** Optional values and results with an error message, the value-level stand-ins
    for JavaScript's `null`/`undefined` and for a thrown `Error`. */
module Wrappers {
  datatype Option<T> = None | Some(value: T)

  datatype Result<T> = Success(value: T) | Failure(error: string)
}
