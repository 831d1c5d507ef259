/** Success or the error code a failed validation throws. */
module Outcomes {

  datatype Error =
    | InvalidData
    | CellUnderflow
    | RangeCheck
    | WrongLabel
    | InvalidFlag
    | EndOfStream
    | SliceIsEmpty
    | InvalidKey
    | CellIsEmpty
    | InvalidCellIndex
    | InvalidRequest
    | InvalidFunctionId
    | InvalidWalletType
    | TickerLength
    | InvalidCell
    | InvalidContract
    | InvalidMessage
    | GetPublicKeyFailed
    | Unmodelled  // the program's behaviour from here on is not part of this model

  datatype Result<+T> = Success(value: T) | Failure(error: Error) {

    predicate IsFailure() {
      Failure?
    }

    function PropagateFailure<U>(): (r: Result<U>)
      requires Failure?
    {
      Failure(error)
    }

    function Extract(): T
      requires Success?
    {
      value
    }
  }

  /** Both succeed, or both fail with the same error. */
  predicate SameOutcome<T, U>(r: Result<T>, s: Result<U>) {
    if s.Success? then r.Success? else r.Failure? && r.error == s.error
  }

  function Validate(condition: bool, error: Error): (r: Result<()>) {
    if condition then Success(()) else Failure(error)
  }
}
