/** The two outcome types used throughout the model: an optional value, and
    the value-or-exception shape that stands for a C++ function that either
    returns or throws (the message is the exception's what() text). */
module Wrappers {
  datatype Option<T> = None | Some(value: T)

  datatype Result<T> = Success(value: T) | Failure(error: string)
}
