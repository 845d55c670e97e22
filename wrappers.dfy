/** Option and Result types, and the errors the translator lets propagate. */
module Wrappers {

  datatype Option<+T> = None | Some(value: T)

  /** The three kinds of uncaught exception the translator can raise. */
  datatype Error =
    /** A missing key in a dict or document (Python `KeyError`, tomlkit `NonExistentKey`). */
    | KeyError(key: string)
    /** `a, b = xs` where `xs` has `parts` elements instead of two (Python `ValueError`). */
    | UnpackError(parts: nat)
    /** `doc[key].pop(...)` where `doc[key]` is not a table (Python `AttributeError`/`TypeError`). */
    | NotATable(key: string)

  datatype Result<+T> = Ok(value: T) | Err(error: Error)
}
