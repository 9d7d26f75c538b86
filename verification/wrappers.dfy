/** The optional and result types shared by the codec modules. */
module Wrappers {

  /** An optional value; `None` stands for "nothing found". */
  datatype Option<+T> = None | Some(value: T)

  /** The outcome of an operation that can fail with an error of type `E`. */
  datatype Result<+R, +E> = Success(value: R) | Failure(error: E)
}
