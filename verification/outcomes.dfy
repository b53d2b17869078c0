/** Failure-carrying values shared by every module of the model: the
    optional values TypeScript writes as `T | null`, and the outcome of an
    operation that either succeeds or rejects with an error message. */
module Outcomes {

  datatype Option<+T> = None | Some(value: T) {

    /** The carried value, or `default` when there is none (`x ?? default`). */
    function GetOr(default: T): T {
      match this
      case Some(v) => v
      case None => default
    }
  }

  /** A settled promise: fulfilled with a value, or rejected with an
      `Error` whose message is kept. */
  datatype Result<+T> = Ok(value: T) | Err(message: string)
}
