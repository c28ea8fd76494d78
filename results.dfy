/**
 * Error conditions and the result type shared by the decoder and the navigator.
 */
module Results {

  /** What can go wrong in a command. */
  datatype Error =
    | InvalidFormat   // the image is not an ISO 9660 volume (fatal at start-up)
    | OutOfBounds     // a read would run past the end of the image
    | NotFound        // no directory record carries the requested name
    | IsADirectory    // get/cat named a directory

  datatype Result<T> = Ok(value: T) | Err(error: Error)

  /** The status of a command that yields no value. */
  datatype Outcome = Pass | Fail(error: Error)
}
