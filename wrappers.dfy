/** Option and Result types shared by the model, and the Python exceptions
    that the modelled code lets escape to its caller. */
module Wrappers {

  datatype Option<+T> = None | Some(value: T)

  /** An exception raised by the modelled code and not caught by it. */
  datatype Exception =
    | IndexError                  // `filters[-1]` on an empty list
    | KeyError(key: string)       // `f[key]` on a rule dictionary without that key
    | CodecError(charset: string) // `str(bytes, encoding=charset)`: `LookupError` for an
                                  // unknown codec, `UnicodeDecodeError` for bytes that
                                  // do not decode

  /** The value of a Python call: what it returned, or what it raised. */
  datatype Result<+T> = Success(value: T) | Failure(error: Exception)
}
