/** The error enum of the library and the result wrappers used throughout the model. */
module Errors {

  /** `SigmaProofError`, one constructor per variant of the Rust enum. */
  datatype SigmaProofError =
    | UninstantiatedScalar
    | UninstantiatedPoint
    | InsufficientScalars
    | InsufficientPoints
    | TooManyScalars(expected: nat, actual: nat)
    | FieldDeserializationFailed(field: string)
    | EquationCheckFailed
    | PsiOutputLengthMismatch
    | TranscriptFinalizationFailed
    | TranscriptError
    | InvalidScalarValues

  datatype Option<+T> = None | Some(value: T)

  /** `SigmaProofResult<T>`; usable with `:-`, which plays the role of Rust's `?`. */
  datatype Result<+T> = Ok(value: T) | Err(error: SigmaProofError) {
    predicate IsFailure() { Err? }

    function PropagateFailure<U>(): Result<U>
      requires Err?
    {
      Err(error)
    }

    function Extract(): T
      requires Ok?
    {
      value
    }
  }

  /**
   * The outcome of generated code that can also panic: an out-of-range slice
   * `&xs[a..b]` aborts the program instead of returning an error.
   */
  datatype Outcome<+T> = Done(value: T) | Raise(error: SigmaProofError) | Panic {
    predicate IsFailure() { !Done? }

    function PropagateFailure<U>(): Outcome<U>
      requires !Done?
    {
      if Raise? then Raise(error) else Panic
    }

    function Extract(): T
      requires Done?
    {
      value
    }
  }
}
