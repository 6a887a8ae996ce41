/** Option and Result types used wherever the source returns null or throws. */
module Wrappers {

  datatype Option<+T> = None | Some(value: T)

  /** The exceptions the modelled code throws. */
  datatype Error =
    | OutOfRange(message: string)

  datatype Result<+T> = Success(value: T) | Failure(error: Error)
}
