/** Optional values and pass/fail outcomes shared by the other modules. */
module Wrappers {

  /** A value that may be absent, as Python's `None` is. */
  datatype Option<+T> = None | Some(value: T)

  /** The outcome of a validator: it either passes or fails with a message. */
  datatype Outcome = Pass | Fail(message: string)
}
