/** Option and Result, used for the source's parse failures and uncaught errors. */
module Wrappers {

  /** A value that may be missing, e.g. a payload that did not parse. */
  datatype Option<+T> = None | Some(value: T)

  /** The outcome of an operation that can raise: `Err` stands for an exception. */
  datatype Result<+T> = Ok(value: T) | Err(reason: string)
}
