/**
 * The typed outcome of a write (src/adapted/write_events.rs): the success
 * body with its event-number range and log positions, and the six ways a
 * write can fail, which mirror the failing `OperationResult` codes.
 */
module AdaptedWriteEvents {
  import opened Wrappers
  import opened StreamVersions
  import opened LogPositions
  import OR = OperationResults

  /** `Range<StreamVersion>`: from `start` up to, not including, `end`. */
  datatype VersionRange = VersionRange(start: StreamVersion, end: StreamVersion)

  /** A successful write. */
  datatype WriteEventsCompleted = WriteEventsCompleted(
    eventNumbers: VersionRange,
    preparePosition: Option<LogPosition>,
    commitPosition: Option<LogPosition>)

  datatype WriteEventsFailure =
    | PrepareTimeout
    | CommitTimeout
    | ForwardTimeout
    | WrongExpectedVersion
    | StreamDeleted
    | AccessDenied

  /** The codes `From<OperationResult>` accepts; the other two are `unreachable!()`. */
  predicate IsFailureCode(r: OR.OperationResult) {
    r != OR.Success && r != OR.InvalidTransaction
  }

  /** The timeouts, which a retry may resolve. */
  predicate IsTransient(f: WriteEventsFailure) {
    f == PrepareTimeout || f == CommitTimeout || f == ForwardTimeout
  }

  /** `From<OperationResult>`: each failing code to the failure of the same name. */
  function FromOperationResult(r: OR.OperationResult): (f: WriteEventsFailure)
    requires IsFailureCode(r)
  {
    match r
    case PrepareTimeout => PrepareTimeout
    case CommitTimeout => CommitTimeout
    case ForwardTimeout => ForwardTimeout
    case WrongExpectedVersion => WrongExpectedVersion
    case StreamDeleted => StreamDeleted
    case AccessDenied => AccessDenied
  }

  /** `Into<OperationResult>`: never yields `Success` or `InvalidTransaction`. */
  function ToOperationResult(f: WriteEventsFailure): (r: OR.OperationResult)
    ensures IsFailureCode(r)
  {
    match f
    case PrepareTimeout => OR.PrepareTimeout
    case CommitTimeout => OR.CommitTimeout
    case ForwardTimeout => OR.ForwardTimeout
    case WrongExpectedVersion => OR.WrongExpectedVersion
    case StreamDeleted => OR.StreamDeleted
    case AccessDenied => OR.AccessDenied
  }

  /** The two conversions are inverse bijections between the failures and the failing codes. */
  lemma FailureRoundTrip(f: WriteEventsFailure, r: OR.OperationResult)
    ensures FromOperationResult(ToOperationResult(f)) == f
    ensures IsFailureCode(r) ==> ToOperationResult(FromOperationResult(r)) == r
  {
  }

  /** A failure is transient exactly when its code is one of the three timeouts. */
  lemma TransientIffTimeout(f: WriteEventsFailure)
    ensures IsTransient(f) <==>
      ToOperationResult(f) in {OR.PrepareTimeout, OR.CommitTimeout, OR.ForwardTimeout}
  {
  }
}
