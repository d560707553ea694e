/** Option and Result values used where the C++ code returns a status flag,
    throws, or leaves an output untouched. */
module Wrappers {

  datatype Option<+T> = None | Some(value: T)

  /** `Failure` carries the text of the C++ exception or error message. */
  datatype Result<+T> = Success(value: T) | Failure(error: string)
}
