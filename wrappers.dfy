/** Optional values and results, as used throughout the model. */
module Wrappers {

  /** Python's `None` versus a present value. */
  datatype Option<+T> = None | Some(value: T)

  /** A computation that either produced a value or failed with a message. */
  datatype Result<+T> = Success(value: T) | Failure(message: string)
}

/**
 * The dynamically typed values the source passes around: a pandas cell or
 * a Python scalar handed to a grade helper.
 */
module Values {

  /**
   * `Missing` is a missing cell (NaN or None: `pd.isna` holds of it),
   * `Str` a Python `str`, and `Num` any other scalar (an int, a float, a
   * bool), carried with the text that Python's `str()` renders for it.
   */
  datatype Cell = Missing | Str(s: string) | Num(repr: string)

  /**
   * `astype(str)` / `str(value)`: pandas renders a missing cell as "nan".
   */
  function Render(c: Cell): (r: string)
    ensures c.Str? ==> r == c.s
    ensures c.Missing? ==> r == "nan"
  {
    match c
    case Missing => "nan"
    case Str(s) => s
    case Num(repr) => repr
  }
}
