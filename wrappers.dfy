/** Option, Result and the error values shared by the whole model. */
module Wrappers {

  datatype Option<+T> = None | Some(value: T)

  /** The error cases of the overlay (`Error::Invalid`, `Error::Full`, `Error::Unknown`),
      plus two cases the source has no value for:
      - `Panicked`: the source panics here (an `unwrap` of `None`, an out-of-range slice);
      - `Loops`: the source enters a loop that never ends. */
  datatype Error = Invalid | Full | Unknown | Panicked | Loops

  datatype Result<+T> = Ok(value: T) | Err(error: Error)

  /** A result that carries no value (`Result<(), Error>` in the source). */
  datatype Outcome = Pass | Fail(error: Error)
}
