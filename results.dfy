/** Failure-compatible wrappers for the Python exceptions the converters can raise. */
module Results {

  datatype Option<+T> = None | Some(value: T)

  /** The ValueErrors raised by the conversion code. */
  datatype Error =
      /** `a, b = s.split(sep)` (or a three-way unpack) met the wrong number of pieces */
    | Unpack(text: string, separator: string, expected: nat, found: nat)
      /** `int(text)` rejected its argument */
    | NotAnInteger(text: string)

  datatype Result<+T> = Ok(value: T) | Err(error: Error) {

    predicate IsFailure() {
      Err?
    }

    function PropagateFailure<U>(): Result<U>
      requires Err?
    {
      Err(error)
    }

    function Extract(): T
      requires Ok?
    {
      value
    }
  }
}
