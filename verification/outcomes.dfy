/** The failures the payload codec can report, one constructor per message the
    decoder raises, and the Result/Option wrappers its operations return. */
module Outcomes {

  /** Every way recovering a payload can fail. */
  datatype Error =
    | InsufficientData     // fewer than 32 bits could be read from the carrier
    | LengthInvalid        // the 32-bit length prefix is zero or overruns the bits read
    | HeaderCorrupted      // a header field is cut short
    | DataLengthMismatch   // the data after data_len is not data_len bytes long
    | PasswordRequired     // the header is locked and no password was given
    | WrongPassword        // the password's digest differs from the stored one
    | DecodeFailed         // the fallback raised when no attempt recorded an error

  datatype Result<+T> = Ok(value: T) | Err(error: Error) {
    predicate IsFailure() {
      Err?
    }

    function PropagateFailure<U>(): Result<U>
      requires Err?
    {
      Err(error)
    }

    function Extract(): T
      requires Ok?
    {
      value
    }
  }

  datatype Option<+T> = None | Some(value: T) {
    function GetOr(default: T): T {
      match this
      case Some(v) => v
      case None => default
    }
  }
}
