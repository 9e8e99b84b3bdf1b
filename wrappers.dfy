/** An optional value: JavaScript's `null`/`undefined`, and the outcome of an operation that may throw. */
module Wrappers {
  datatype Option<+T> = None | Some(value: T)
}
