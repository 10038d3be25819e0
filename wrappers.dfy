/** Failure-carrying results. Go functions of the modelled core return `(T, error)`;
    here an error is represented by the exact text its `Error()` method would return. */
module Wrappers {

  datatype Option<+T> = None | Some(value: T)

  datatype Result<+T> = Ok(value: T) | Err(msg: string)

  /** A Go function that returns only an `error`: nil, or the error's text. */
  datatype Outcome = Success | Failure(msg: string)
}
