/** Failure-carrying values shared by every module of the model.
    - `Result<T>`: a Go `(T, error)` pair or a Rust `Result<T, Box<dyn Error>>`; the error is
      kept as its message text.
    - `Option<T>`: a Go pointer that may be nil, an optional field, a Rust `Option`.
    - `Outcome<T>`: an operation that either returns (with a `Result`) or panics (a Go
      `panic`, a Rust `unwrap`/`expect`/`unimplemented!` on the failing case). */
module Wrappers {

  datatype Option<+T> = None | Some(value: T)

  datatype Result<+T> = Ok(value: T) | Err(msg: string)

  datatype Outcome<+T> = Returned(result: T) | Panicked(reason: string)

  /** The empty value returned by functions whose only result is an `error`. */
  datatype Unit = Unit
}
