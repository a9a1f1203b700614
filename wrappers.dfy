/** Failure-carrying values shared by the service and the player. */
module Wrappers {

  /** A value that may be absent (a missing payload, a builtin that threw). */
  datatype Option<+T> = None | Some(value: T)

  /** The outcome of a call that either yields a value or fails with an error. */
  datatype Result<+T, +E> = Success(value: T) | Failure(error: E)
}
