/** Failure-carrying datatypes shared by every module of the model.

    The Palringo engine, the bot and the audio source are Python 2 code that
    signals failure by raising. Each exception class the code can raise on
    some input becomes a `Fault`, and an operation that can raise returns a
    `Result`.
 */
module Common {

  /** Python's `None` or a value. */
  datatype Option<+T> = None | Some(value: T) {
    function GetOr(default: T): T {
      match this
      case Some(v) => v
      case None => default
    }
  }

  /** The Python exception classes the modelled code can raise. */
  datatype Fault =
    | ValueError      // int() of a non-number, dict() of a pair that is not a pair
    | KeyError        // d[k] on a missing key
    | TypeError       // indexing or assigning into a str as if it were a dict
    | AttributeError  // calling a dict method on a str
    | StructError     // struct.unpack on too few bytes
    | IndexError      // indexing past the end of a bytearray
    | RegexError      // re.error: a pattern that does not compile
    | ZlibError       // zlib.error: a payload that does not inflate

  /** A value, or the exception that replaced it. */
  datatype Result<+T> = Ok(value: T) | Err(fault: Fault) {
    predicate IsFailure() { Err? }

    function PropagateFailure<U>(): Result<U>
      requires Err?
    {
      Err(fault)
    }

    function Extract(): T
      requires Ok?
    {
      value
    }
  }
}
