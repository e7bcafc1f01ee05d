/** Failure values shared by the archive layer and the XML collection step.
    Go's `error` results become a tagged `Error`; a nil pointer becomes `None`. */
module Errors {

  /** The failures the core reports. The message text of the source's
      `fmt.Errorf` calls is not modelled, only which failure it is. */
  datatype Error =
    | FileNotFound(name: string)           // no entry has exactly this name
    | NoFileContaining(substring: string)  // no entry name contains this fragment
    | ReadFailed(cause: string)            // opening or decoding an entry failed

  datatype Option<+T> = None | Some(value: T)

  datatype Result<+T> = Ok(value: T) | Err(error: Error)
}
