/** Error kinds and result wrappers shared by the chunk reader, the header
    validator and the chunk walk. The Go code builds error strings; the
    model only distinguishes the kinds. */
module Outcomes {

  datatype Error =
    | InvalidBuffer   // uInt32ToInt: empty buffer or more than 4 bytes
    | OutOfRange      // a slice or index past the end of the buffer (a runtime panic in Go)
    | BadIHDRLength   // parseIHDR: header chunk length is not 13
    | BadWidth        // parseIHDR: width is 0
    | BadHeight       // parseIHDR: height is 0
    | BadCompression  // parseIHDR: compression method is not 0
    | BadFilter       // parseIHDR: filter method is not 0
    | BadInterlace    // parseIHDR: interlace method is not 0

  /** A value or an error, as Go's `(T, error)` pairs. */
  datatype Result<T> = Ok(value: T) | Err(error: Error)

  /** Go's bare `error` return: nil or an error. */
  datatype Outcome = Pass | Fail(error: Error)
}
