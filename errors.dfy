/** Error outcomes of hana's file store, pipeline and metadata predicates, and the
    wrappers that carry them. The exception classes of hana/errors.py and the Python
    built-in exceptions that the core raises become constructors of one datatype. */
module Errors {

  datatype Error =
    | KeyError                // a missing key in a dict (`dict.pop`, `d[key]`)
    | TypeError               // a Python type error: a bad call or an unsupported operand
    | UnicodeDecodeError      // the bytes of a text file are not valid UTF-8
    | MissingOutputDirectory  // HanaMissingOutputDirectoryError

  datatype Option<T> = None | Some(value: T)

  datatype Result<T> = Ok(value: T) | Err(error: Error)

  /** The outcome of an operation that returns nothing but may raise. */
  datatype Outcome = Pass | Fail(error: Error)
}
