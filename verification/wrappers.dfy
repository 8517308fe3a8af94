/** Optional values and thrown errors of the TypeScript source: `undefined`
    becomes `None`, and a thrown `Error` becomes `Failure`. */
module Wrappers {

  datatype Option<+T> = None | Some(value: T)

  datatype Result<+R, +E> = Success(value: R) | Failure(error: E)
}
