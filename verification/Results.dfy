/** The error returns of the modelled code. */
module Results {
  datatype Error =
    | InvalidUtf8
    | OddLength
    | UnsupportedCoding
    | TooManyParts
    | NoParts
    | MissingUdhi
    | TooShortForUdh
    | InvalidUdhLength
    | SliceOutOfRange   // the run-time panic of a slice expression
    | InvalidUdh
    | InconsistentTotal
    | InconsistentReference
    | WrongPartCount
    | MissingPart
    | EmptySource
    | EmptyDestination
    | UnsupportedCharacter
    | TooLong
    | InvalidTonNpi
    | InsufficientData
    | InvalidCommandLength
    | UnsupportedCommand
    | EndOfStream
    | EmptyId
    | NotFound
    | DiskFailure

  datatype Result<+T> = Ok(value: T) | Err(error: Error) {
    predicate IsFailure() { Err? }

    function PropagateFailure<U>(): Result<U>
      requires Err?
    {
      Err(error)
    }

    function Extract(): T
      requires Ok?
    {
      value
    }
  }
}
