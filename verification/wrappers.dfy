/** Option and Result types shared by the other modules. */
module Wrappers {

  /** An optional value: the source's `None` or a present value. */
  datatype Option<+T> = None | Some(value: T)

  /** Either a value or the reason it could not be produced. */
  datatype Result<+R, +E> = Success(value: R) | Failure(error: E)
}
