/** Option and Result values, standing for JavaScript's `undefined` fields
    and for rejected promises. */
module Wrappers {
  datatype Option<+T> = None | Some(value: T)

  datatype Result<+R, +E> = Success(value: R) | Failure(error: E)
}
