/** Values shared by every script: optional cells and the exceptions that end a script. */
module Common {

  /** A cell that may be missing (a pandas NaN, an absent dict key, a `None`). */
  datatype Option<T> = None | Some(value: T)

  /** The uncaught Python exceptions the modelled code can raise. */
  datatype Crash =
    | UnpackError         // `a, b = line.split("\t")` on a line with more than one tab
    | NonAsciiHex         // `binascii.unhexlify` given a str with a non-ASCII character (a ValueError)
    | ColumnCountMismatch // `pd.DataFrame(data, columns=...)` whose widest row is not as wide as the columns

  datatype Result<T> = Ok(value: T) | Err(error: Crash)
}
