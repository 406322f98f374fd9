/** Failure-compatible wrappers shared by every module of the model. */
module Wrappers {

  /** The Python `X | None` return convention. */
  datatype Option<+T> = None | Some(value: T)

  /** A Python call that either returns a value or raises one of the errors below. */
  datatype Result<+R> = Ok(value: R) | Err(error: Error)

  /** The exception classes the extraction core raises or catches. */
  datatype Error =
    | InvalidFile      // InvalidFileError
    | XmlParse         // XMLParseError, and ElementTree's ParseError
    | Expression       // ExpressionError
    | Value            // ValueError (including UnicodeDecodeError)
}
