/** The optional and failure-carrying values the model passes around. */
module Outcomes {

  datatype Option<+T> = None | Some(value: T)

  /** A settled promise: resolved with a value, or rejected with an `Error`
      whose message is `message`. */
  datatype Result<+T> = Success(value: T) | Failure(message: string)
}
