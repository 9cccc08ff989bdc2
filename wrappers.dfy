/** Failure-carrying values shared by every module of the model. */
module Wrappers {

  /** A value that may be absent: `null`/`undefined` on the TypeScript side. */
  datatype Option<+T> = None | Some(value: T) {

    /** The `??` operator: the value, or `default` when it is absent. */
    function GetOr(default: T): T {
      match this
      case Some(v) => v
      case None => default
    }
  }

  /** The outcome of an awaited call that either returns a value or throws an
      error whose message is kept. */
  datatype Result<+T> = Ok(value: T) | Err(message: string)
}
