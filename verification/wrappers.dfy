/** Option and Result: the nullable values and the thrown exceptions of the session code. */
module Wrappers {

  /** The exceptions the session code raises. */
  datatype Error =
    /** The RuntimeException of `startSession` when PHP sessions are disabled. */
    | SessionsDisabled
    /** The failure of the `Session` constructor for data that is neither a
        container nor an array. */
    | InvalidSessionData
    /** The TypeError `set` raises for a value json_encode cannot represent. */
    | NotSerializable

  datatype Option<+T> = None | Some(value: T) {
    function GetOr(default: T): T {
      match this
      case Some(v) => v
      case None => default
    }
  }

  datatype Result<+T, +E> = Success(value: T) | Failure(error: E) {
    predicate IsFailure() { Failure? }

    function PropagateFailure<U>(): Result<U, E>
      requires Failure?
    {
      Failure(error)
    }

    function Extract(): T
      requires Success?
    {
      value
    }
  }
}
