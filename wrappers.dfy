/** The two failure-compatible shapes the model needs: a lookup that may find
    nothing, and an outcome that is either a value or the key whose absence made
    Python raise KeyError. */
module Wrappers {

  datatype Option<+T> = None | Some(value: T)

  datatype Result<+T, +E> = Success(value: T) | Failure(error: E)

}
