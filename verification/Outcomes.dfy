/** Results of validation and conversion. Go's error values appear as kinds, without their text. */
module Outcomes {

  datatype Option<+T> = None | Some(value: T)

  datatype Outcome = Pass | Fail(error: Error)

  datatype Result<+T> = Success(value: T) | Failure(error: Error) {
    predicate IsFailure() { Failure? }

    function PropagateFailure<U>(): Result<U>
      requires Failure?
    {
      Failure(error)
    }

    function Extract(): T
      requires Success?
    {
      value
    }
  }

  /** Go's pair of a decoded value and the verdict of its Validate, as one result. */
  function Checked<T>(value: T, verdict: Outcome): Result<T> {
    match verdict
    case Pass => Success(value)
    case Fail(e) => Failure(e)
  }

  datatype Error =
    // wire
    | KeyEmpty | KeyTooLarge | ValueTooLarge
    | MutationIdRequired | MutationIdLength
    | InvalidWriteMode | InvalidConfirmLevel | InvalidStorageProfile
    | InvalidWriteTimeout | TimeoutNotWholeMillis | WriteTimeoutTooLarge
    | NegativeTtl | TtlNotWholeMillis
    | InvalidProtocolRange | IncompatibleProtocolRanges
    | InvalidPartitionCount | MinVersionElsewhere
    | InvalidGetStatus | MissingVersion | UnexpectedVersion | UnexpectedValue
    | InvalidRecordKind | InvalidResultTtl
    // control
    | InvalidHubGeneration | InvalidNodeId | InvalidSequence | InvalidSequenceRange
    | NonContiguousBatch | PartitionMismatch | TooManyEvents | BatchTooLarge
    | TooManySubscriptions | DuplicateSubscription | EmptySubscriptions | EmptyInvalidationBatch
    | InvalidMessage | InvalidClusterId | InvalidControlStatus | ControlDetailTooLarge
    // rpc
    | InvalidDurableHealth | InvalidOp | UnexpectedTtl | InvalidMutationStatus
    | FingerprintMismatch | InvalidStatus | InvalidEnum | NilMessage
}
