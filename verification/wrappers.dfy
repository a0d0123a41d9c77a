/** Failure-compatible result types shared by every module of the model.

    The library reports failures through `kstd::Result<T>` (a value or an error) and
    absent values through `kstd::Option<T>`; both are modelled here. */
module Wrappers {

  /** `kstd::Option<T>`: an optional value. */
  datatype Option<+T> = None | Some(value: T) {

    /** Returns the value encapsulated in Some or a default value if None (`get_or`). */
    function GetOr(default: T): T {
      match this
      case Some(v) => v
      case None => default
    }
  }

  /** `kstd::Result<T>`: either a value or an error of type E. */
  datatype Result<+T, +E> = Success(value: T) | Failure(error: E) {

    predicate IsFailure() {
      Failure?
    }

    function PropagateFailure<U>(): Result<U, E>
      requires Failure?
    {
      Failure(error)
    }

    function Extract(): T
      requires Success?
    {
      value
    }

    /** `unwrap_or` / `get_or`: the value, or a default on error. */
    function UnwrapOr(default: T): T {
      match this
      case Success(v) => v
      case Failure(_) => default
    }
  }

  /** `kstd::Result<void>`: success or an error. */
  datatype Outcome<+E> = Pass | Fail(error: E) {

    predicate IsFailure() {
      Fail?
    }

    function PropagateFailure(): Outcome<E>
      requires Fail?
    {
      this
    }
  }
}
