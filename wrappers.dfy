/** Failure-carrying result types shared by every module of the model. */
module Wrappers {

  datatype Option<+T> = None | Some(value: T)

  /** The Python exception a call raises, by kind. `NotModelled` marks a branch
      of the original code that this model deliberately does not describe. */
  datatype Exception =
    | ValueError
    | AssertionError
    | IndexError
    | TypeError
    | NotModelled

  datatype Result<+T> = Ok(value: T) | Err(error: Exception)
}
