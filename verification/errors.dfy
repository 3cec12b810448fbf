/** Python's None and the exceptions the reader can raise, as values. */
module Errors {

  datatype Option<+T> = None | Some(value: T)

  /** The exceptions raised on the reader's paths. */
  datatype PyError =
    | IndexError      // indexing an empty list or array
    | AttributeError  // calling `append` on a numpy array
    | TypeError       // arithmetic on a field still set to None

  datatype Result<+T> = Ok(value: T) | Err(error: PyError)

  /** The outcome of a method that stores its result in a field. */
  datatype Outcome = Pass | Fail(error: PyError)
}
