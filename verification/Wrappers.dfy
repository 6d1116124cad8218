/** The outcomes shared by every model: a value that may be absent, and an
    operation that may fail with the message of the source's error return. */
module Wrappers {
  datatype Option<+T> = None | Some(value: T)

  datatype Result<+T> = Ok(value: T) | Err(error: string)
}
