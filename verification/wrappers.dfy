/** Failure-compatible result types for the extractor model.

    Every Python exception a modelled operation can raise becomes an `Err`
    carrying the kind of the exception and the reason it was raised, so that
    callers can see error paths instead of having them excluded by a
    precondition.
 */
module Wrappers {

  /** Why an operation failed; each case names the Python exception it stands for. */
  datatype Error =
    | NoMoreInts        // ValueError: a 32-bit word is read past the end of the buffer
    | NegativeShift     // ValueError: a shift by a negative count
    | LookbackTooFar    // ValueError: a back-reference reaches before the start of the output
    | LookbackIndex     // IndexError: a back-reference exactly one byte before the output
    | IndexOutOfRange   // IndexError: indexing a sequence past its end
    | OutOfBytes        // ValueError: fewer bytes than a record needs
    | PackRange         // struct.error: a value does not fit its packed field
    | MissingKey        // KeyError: a lookup of a key that is not present
    | AssertionFailed   // AssertionError: a failed `assert` of the source
    | UnknownValue      // ValueError: a value outside an enumeration or dispatch table
    | Overflow          // OverflowError: int.to_bytes of a value too big for its width
    | NoneCompared      // TypeError: max() of an int and None
    | ShortBuffer       // struct.error: unpack of fewer bytes than the format needs
    | MissingAttribute  // AttributeError: reading an attribute that was never assigned

  /** The conventional Some/None datatype. */
  datatype Option<+T> = None | Some(value: T) {

    predicate IsFailure() {
      None?
    }

    function PropagateFailure<U>(): Option<U>
      requires None?
    {
      None
    }

    function Extract(): T
      requires Some?
    {
      value
    }
  }

  /** Either a value or the error that stopped the computation. */
  datatype Result<+T> = Ok(value: T) | Err(error: Error) {

    predicate IsFailure() {
      Err?
    }

    function PropagateFailure<U>(): Result<U>
      requires Err?
    {
      Err(error)
    }

    function Extract(): T
      requires Ok?
    {
      value
    }
  }
}
