/**
 * The typed failure of a single-event read (src/adapted/read_event.rs):
 * every `ReadEventResult` except `Success`, with the server's message kept
 * for `Error` only.
 */
module AdaptedReadEvent {
  import opened Ints
  import opened Wrappers
  import RER = ReadEventResults

  datatype ReadEventError =
    | NotFound
    | NoStream
    | StreamDeleted
    | Error(message: Option<seq<Byte>>)
    | AccessDenied

  /** `From<(ReadEventResult, Option<str>)>`; `Success` is `unreachable!()`. */
  function FromResult(res: RER.ReadEventResult, err: Option<seq<Byte>>): (e: ReadEventError)
    requires res != RER.Success
    ensures e.Error? <==> res == RER.Error
    ensures e.Error? ==> e.message == err
  {
    match res
    case NotFound => NotFound
    case NoStream => NoStream
    case StreamDeleted => StreamDeleted
    case Error => Error(err)
    case AccessDenied => AccessDenied
  }

  /**
   * The result code and message that `as_raw` writes back for an error
   * (src/adapted/mod.rs:361-370).
   */
  function ToResult(e: ReadEventError): (parts: (RER.ReadEventResult, Option<seq<Byte>>))
    ensures parts.0 != RER.Success
    ensures parts.1.Some? ==> e.Error?
  {
    match e
    case NotFound => (RER.NotFound, None)
    case NoStream => (RER.NoStream, None)
    case StreamDeleted => (RER.StreamDeleted, None)
    case Error(m) => (RER.Error, m)
    case AccessDenied => (RER.AccessDenied, None)
  }

  /**
   * Every error survives the trip through its code; every failing code
   * survives the trip through its error, so distinct codes give distinct
   * errors, and only `Error` keeps the message.
   */
  lemma ErrorRoundTrip(e: ReadEventError, res: RER.ReadEventResult, err: Option<seq<Byte>>)
    ensures FromResult(ToResult(e).0, ToResult(e).1) == e
    ensures res != RER.Success ==>
      ToResult(FromResult(res, err)) == (res, if res == RER.Error then err else None)
  {
  }
}
