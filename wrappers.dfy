/** Option and Result, the shapes the model uses for JavaScript's `undefined`
    results and for thrown errors. */
module Wrappers {

  datatype Option<+T> = None | Some(value: T)

  /** `Failure` carries the message of the error the source would throw. */
  datatype Result<+T> = Ok(value: T) | Failure(error: string)
}
