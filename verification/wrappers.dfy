/** Optional values: `None` stands for a Go nil pointer or a missing map entry. */
module Wrappers {

  datatype Option<+T> = None | Some(value: T)

  /** Outcome of an operation that either succeeds or reports one error. */
  datatype Outcome<+E> = Pass | Fail(error: E)
}
