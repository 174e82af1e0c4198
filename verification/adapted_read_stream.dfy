/**
 * The typed outcome of a stream read (src/adapted/read_stream.rs): a page
 * of events with the event number to continue from, or one of the failing
 * `ReadStreamResult` codes.
 */
module AdaptedReadStream {
  import opened Ints
  import opened Wrappers
  import opened EventRecords
  import opened StreamVersions
  import EN = EventNumbers
  import RSR = ReadStreamResults

  /** A successful page of a stream read. */
  datatype ReadStreamCompleted = ReadStreamCompleted(
    events: seq<ResolvedIndexedEvent>,
    // where the next page starts; `None` once a backward read reached the start
    nextPage: Option<EN.EventNumber>,
    lastEventNumber: StreamVersion,
    endOfStream: bool,
    lastCommitPosition: I64)

  datatype ReadStreamError =
    | NoStream
    | StreamDeleted
    | NotModified
    | Error(message: Option<seq<Byte>>)
    | AccessDenied

  /** `From<(ReadStreamResult, Option<str>)>`; `Success` is `unreachable!()`. */
  function FromResult(res: RSR.ReadStreamResult, err: Option<seq<Byte>>): (e: ReadStreamError)
    requires res != RSR.Success
    ensures e.Error? <==> res == RSR.Error
    ensures e.Error? ==> e.message == err
  {
    match res
    case NoStream => NoStream
    case StreamDeleted => StreamDeleted
    case NotModified => NotModified
    case Error => Error(err)
    case AccessDenied => AccessDenied
  }

  /**
   * The result code and message that `as_raw` writes back for an error
   * (src/adapted/mod.rs:475-483).
   */
  function ToResult(e: ReadStreamError): (parts: (RSR.ReadStreamResult, Option<seq<Byte>>))
    ensures parts.0 != RSR.Success
    ensures parts.1.Some? ==> e.Error?
  {
    match e
    case NoStream => (RSR.NoStream, None)
    case StreamDeleted => (RSR.StreamDeleted, None)
    case NotModified => (RSR.NotModified, None)
    case Error(m) => (RSR.Error, m)
    case AccessDenied => (RSR.AccessDenied, None)
  }

  /**
   * Every error survives the trip through its code; every failing code
   * survives the trip through its error, so distinct codes give distinct
   * errors, and only `Error` keeps the message.
   */
  lemma ErrorRoundTrip(e: ReadStreamError, res: RSR.ReadStreamResult, err: Option<seq<Byte>>)
    ensures FromResult(ToResult(e).0, ToResult(e).1) == e
    ensures res != RSR.Success ==>
      ToResult(FromResult(res, err)) == (res, if res == RSR.Error then err else None)
  {
  }
}
