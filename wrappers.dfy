/** The `Option` and pass-or-fail outcome types used throughout the model. */
module Wrappers {

  /** Rust's `Option<T>`. */
  datatype Option<+T> = None | Some(value: T)

  /** The outcome of a check that either passes or aborts with an error. */
  datatype Outcome<+E> = Pass | Fail(error: E)
}
