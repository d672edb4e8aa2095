/** Failure-compatible wrappers shared by every module of the model.

    A C# reference argument that may be `null` is modelled as an `Option`
    (`None` standing for `null`), and a method that can throw is modelled as a
    function returning a `Result` whose `Failure` carries the exception. */
module Wrappers {

  datatype Option<+T> = None | Some(value: T)

  datatype Result<+R, +E> = Success(value: R) | Failure(error: E) {

    predicate IsFailure() {
      Failure?
    }

    function PropagateFailure<U>(): Result<U, E>
      requires Failure?
    {
      Failure(error)
    }

    function Extract(): R
      requires Success?
    {
      value
    }
  }

  /** The .NET exceptions the modelled code can throw. A `paramName` field
      is the `ParamName` the exception carries. */
  datatype Exception =
    | ArgumentNull(paramName: string)
    | ArgumentOutOfRange(paramName: string)
    | Argument(paramName: string)
      /** An `ArgumentException` built from a message alone, whose
          `ParamName` is null. */
    | ArgumentMessage(message: string)
      /** `Base32Encoder.Decode` on a character outside its alphabet. */
    | InvalidCharacter(paramName: string, offending: char)
      /** `byte.Parse` on a pair that is not two hex digits. */
    | Format
      /** Indexing an array or the result of `string.Split` past its end. */
    | IndexOutOfRange
      /** Allocating an array of negative length. */
    | Overflow
      /** A failure raised inside a cryptographic primitive. */
    | Cryptographic
}
