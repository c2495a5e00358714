/** Optional values and pass/fail outcomes shared by the modules. */
module Wrappers {

  datatype Option<+T> = None | Some(value: T)

  /** The outcome of an operation that either succeeds or raises `error`. */
  datatype Outcome<+E> = Pass | Fail(error: E)
}
