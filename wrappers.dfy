/** Option and Result types shared by the codec. Result is failure-compatible,
    so a chain of field reads can be written with `:-`, which models the way
    the first ValueError raised by Python's int() or str.index() aborts the
    whole decode or encode. */
module Wrappers {

  datatype Option<T> = None | Some(value: T)

  /** The ValueError conditions the codec raises, one per distinct cause. */
  datatype Error =
    | EmptyBinaryLiteral      // int('', 2): a field read starts past the end of the bitstream
    | InvalidAisCharacter     // a wire character outside the two armoring ranges
    | CharacterNotInAlphabet  // str.index: a text character outside the six-bit alphabet
    | InvalidSixBitValue      // a value outside 0..63 given to the armoring table

  datatype Result<T> = Ok(value: T) | Err(error: Error) {
    predicate IsFailure() { Err? }

    function PropagateFailure<U>(): Result<U>
      requires Err?
    {
      Err(error)
    }

    function Extract(): T
      requires Ok?
    {
      value
    }
  }
}
