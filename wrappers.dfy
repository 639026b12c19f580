/** Option and Outcome: a C# reference that may be null, and an operation that may throw. */
module Wrappers {

  /** A value that may be absent, standing for a C# reference that may be null. */
  datatype Option<+T> = None | Some(value: T)

  /** The outcome of an operation that either completes or throws an exception with a message. */
  datatype Outcome = Pass | Fail(error: string)
}
