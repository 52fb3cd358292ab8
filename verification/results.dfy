/** Error kinds and the result types used by the chunk codec.
    The source carries formatted strings inside its error enum; here each kind of
    failure is a constructor with structured fields instead. */
module Results {
  import opened Utils

  /** The ways a codec operation can fail. */
  datatype Error =
    | Empty                                  // a chunk parse was handed no bytes at all
    | TooLong                                // a declared chunk length exceeds 2^31 - 1
    | Truncated                              // fewer bytes remain than a field or frame needs
    | CrcMismatch(expected: u32, received: u32)    // recomputed CRC differs from the stored one
    | BadHeader(header: seq<byte>)            // the first eight bytes are not the PNG signature
    | NoMatch                                // no chunk of the requested type exists

  /** Success with a value, or failure with an `Error`. */
  datatype Result<+T> = Ok(value: T) | Err(error: Error)

  /** An optional value, as returned by lookups that do not fail. */
  datatype Option<+T> = None | Some(value: T)
}
