/** Values shared by the range engine and the catalog: optional values,
    the Python exceptions the core can raise, and integer minimum. */
module Common {

  /** Python's `None` or a present value. */
  datatype Option<+T> = None | Some(value: T) {
    function GetOr(default: T): T {
      match this
      case Some(v) => v
      case None => default
    }
  }

  /** The exceptions the modelled code raises instead of returning. */
  datatype Error =
    | TypeError        // `re.match` given `None` (no Range header)
    | ValueError       // `read` given a length below -1
    | AssertionError   // the length check after reading the window fails
    | KeyError(key: int)  // catalog lookup of an index that is not a key

  datatype Result<+T> = Ok(value: T) | Err(error: Error)

  /** Python's built-in `min` on two integers. */
  function Min(a: int, b: int): (m: int)
    ensures m <= a && m <= b
    ensures m == a || m == b
  {
    if a <= b then a else b
  }
}
