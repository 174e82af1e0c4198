/**
 * The typed outcome of a read of the whole log (src/adapted/read_all.rs):
 * a page of events with typed log positions, or one of the failing
 * `ReadAllResult` codes.
 */
module AdaptedReadAll {
  import opened Ints
  import opened Wrappers
  import ER = EventRecords
  import opened LogPositions
  import RAR = ReadAllResults

  /** A successful page of a read of the whole log. */
  datatype ReadAllCompleted = ReadAllCompleted(
    commitPosition: LogPosition,
    preparePosition: LogPosition,
    events: seq<ResolvedEvent>,
    nextCommitPosition: Option<LogPosition>,
    nextPreparePosition: Option<LogPosition>)

  /** An event of such a page, with its positions typed. */
  datatype ResolvedEvent = ResolvedEvent(
    event: ER.EventRecord,
    link: Option<ER.EventRecord>,
    commitPosition: LogPosition,
    preparePosition: LogPosition)

  datatype ReadAllError =
    | NotModified
    | Error(message: Option<seq<Byte>>)
    | AccessDenied

  /** Both positions of a wire event are valid log positions. */
  predicate HasPositions(e: ER.ResolvedEvent) {
    e.commitPosition >= -1 && e.preparePosition >= -1
  }

  /**
   * `From<client_messages::ResolvedEvent>`: the records are carried over and
   * both positions become `LogPosition`s. The `i64` to `LogPosition`
   * conversion it calls is taken to be `TryFrom<i64>`, unwrapped.
   */
  function FromResolvedEvent(e: ER.ResolvedEvent): (r: ResolvedEvent)
    requires HasPositions(e)
    ensures r.event == e.event && r.link == e.link
    ensures ToI64(r.commitPosition) == e.commitPosition
    ensures ToI64(r.preparePosition) == e.preparePosition
    ensures WellFormed(r.commitPosition) && WellFormed(r.preparePosition)
  {
    I64RoundTrip(e.commitPosition);
    I64RoundTrip(e.preparePosition);
    ResolvedEvent(
      e.event,
      e.link,
      TryFromI64(e.commitPosition).value,
      TryFromI64(e.preparePosition).value)
  }

  /** `events.into_iter().map(From::from).collect()`. */
  function FromResolvedEvents(events: seq<ER.ResolvedEvent>): (r: seq<ResolvedEvent>)
    requires forall i :: 0 <= i < |events| ==> HasPositions(events[i])
    ensures |r| == |events|
    ensures forall i :: 0 <= i < |events| ==> r[i] == FromResolvedEvent(events[i])
  {
    seq(|events|, i requires 0 <= i < |events| => FromResolvedEvent(events[i]))
  }

  /** `From<(ReadAllResult, Option<str>)>`; `Success` is `unreachable!()`. */
  function FromResult(res: RAR.ReadAllResult, err: Option<seq<Byte>>): (e: ReadAllError)
    requires res != RAR.Success
    ensures e.Error? <==> res == RAR.Error
    ensures e.Error? ==> e.message == err
  {
    match res
    case NotModified => NotModified
    case Error => Error(err)
    case AccessDenied => AccessDenied
  }

  /**
   * The failing code an error stands for: the inverse of `FromResult`, used
   * to state that no code is lost. The source's `as_raw` for a read of the
   * whole log is `unimplemented!()`, so nothing there sends it.
   */
  function ToResult(e: ReadAllError): (res: RAR.ReadAllResult)
    ensures res != RAR.Success
  {
    match e
    case NotModified => RAR.NotModified
    case Error(_) => RAR.Error
    case AccessDenied => RAR.AccessDenied
  }

  /** Distinct failing codes give distinct errors; only `Error` keeps the message. */
  lemma ErrorKeepsCode(res: RAR.ReadAllResult, err: Option<seq<Byte>>)
    requires res != RAR.Success
    ensures ToResult(FromResult(res, err)) == res
  {
  }
}
