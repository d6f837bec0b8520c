/** Failure-carrying datatypes shared by every module of the model: Rust's
    `Option`, `Result` (with the application's `Error`), and a value-less
    `Outcome` for collaborators that only succeed or fail. */
module Wrappers {

  /** Rust's `Option<T>`. */
  datatype Option<+T> = None | Some(value: T) {

    function GetOr(default: T): T {
      match this
      case Some(v) => v
      case None => default
    }
  }

  /** Rust's `Result<T, E>`. */
  datatype Result<+T, +E> = Ok(value: T) | Err(error: E)

  /** The result of a collaborator call whose success carries no value
      (a database write, an e-mail send). */
  datatype Outcome<+E> = Pass | Fail(error: E)

  /** `Option::map(...).unwrap_or(...)`, written once for every rendering
      helper that shows a placeholder for a missing value. */
  function MapOr<T, U>(o: Option<T>, f: T -> U, default: U): U
  {
    match o
    case Some(v) => f(v)
    case None => default
  }
}
