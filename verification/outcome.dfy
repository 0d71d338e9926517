/** The failure-carrying wrapper used by the date rules. */
module Outcome {

  /** A value that may be absent; `None` stands for an operation that raised. */
  datatype Option<+T> = None | Some(value: T)
}
