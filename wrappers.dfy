/** Option and Result, standing for Java's null and for the exceptions the adapters catch. */
module Wrappers {

  datatype Option<+T> = None | Some(value: T)

  /** The outcome of an operation that may fail with a message. */
  datatype Result<+T> = Success(value: T) | Failure(error: string)
}
