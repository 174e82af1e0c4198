/**
 * `AdaptedMessage` (src/adapted/mod.rs): the raw messages with their
 * completions checked and typed. A completion becomes `Ok` of a typed
 * success or `Err` of a typed failure; a completion that cannot be typed
 * (no result code, a position or version out of range) is a conversion
 * error that hands the raw message back. `AsRaw` goes the other way, filling
 * what the typed form dropped with fixed sentinels.
 */
module Adapted {
  import opened Ints
  import opened Wrappers
  import opened Utf8
  import opened ReadDirections
  import Errors
  import SV = StreamVersions
  import EN = EventNumbers
  import LP = LogPositions
  import OR = OperationResults
  import RER = ReadEventResults
  import RSR = ReadStreamResults
  import RAR = ReadAllResults
  import ER = EventRecords
  import WM = WriteMessages
  import RM = ReadMessages
  import Raw
  import AW = AdaptedWriteEvents
  import ARE = AdaptedReadEvent
  import ARS = AdaptedReadStream
  import ARA = AdaptedReadAll

  /** Placeholder for the information of a `NotHandled`; no conversion produces it. */
  datatype NotHandledInfo = NotHandledInfo(placeholder: seq<Byte>)

  datatype AdaptedMessage =
    | HeartbeatRequest
    | HeartbeatResponse
    | Ping
    | Pong
    | WriteEvents(writeEvents: WM.WriteEvents)
    | WriteEventsCompleted(writeEventsCompleted: Result<AW.WriteEventsCompleted, AW.WriteEventsFailure>)
    | ReadEvent(readEvent: RM.ReadEvent)
    | ReadEventCompleted(readEventCompleted: Result<ER.ResolvedIndexedEvent, ARE.ReadEventError>)
    | ReadStreamEvents(streamDirection: ReadDirection, readStreamEvents: RM.ReadStreamEvents)
    | ReadStreamEventsCompleted(
        streamDirection: ReadDirection,
        readStreamEventsCompleted: Result<ARS.ReadStreamCompleted, ARS.ReadStreamError>)
    | ReadAllEvents(allDirection: ReadDirection, readAllEvents: RM.ReadAllEvents)
    | ReadAllEventsCompleted(
        allDirection: ReadDirection,
        readAllEventsCompleted: Result<ARA.ReadAllCompleted, ARA.ReadAllError>)
      // the payload as a string: well-formed UTF-8
    | BadRequest(badRequest: seq<Byte>)
    | NotHandled(notHandled: NotHandledInfo)
    | Authenticate
    | Authenticated
      // the payload as a string: well-formed UTF-8
    | NotAuthenticated(notAuthenticated: seq<Byte>)

  // ---- event-number ranges ----

  /**
   * The parts `range_from_parts` accepts without panicking: `from_i32`
   * refuses negatives and `i32::MAX`, and `end + 1` must not overflow.
   */
  predicate RangePartsInBounds(start: I32, end: I32) {
    0 <= start < I32_MAX && -1 <= end < I32_MAX - 1
  }

  /** `range_from_parts`: the first and last event number to the range `[start, end + 1)`. */
  function RangeFromParts(start: I32, end: I32): (r: AW.VersionRange)
    requires RangePartsInBounds(start, end)
    ensures SV.ToI32(r.start) == start && SV.ToI32(r.end) == end + 1
  {
    AW.VersionRange(SV.FromI32(start), SV.FromI32(end + 1))
  }

  /** `range_to_parts`: a range back to its first and last event number. */
  function RangeToParts(r: AW.VersionRange): (parts: (I32, I32))
    ensures 0 <= parts.0 && -1 <= parts.1
    ensures parts.0 == SV.ToI32(r.start) && parts.1 + 1 == SV.ToI32(r.end)
  {
    (SV.ToI32(r.start), SV.ToI32(r.end) - 1)
  }

  lemma RangePartsRoundTrip(start: I32, end: I32)
    requires RangePartsInBounds(start, end)
    ensures RangeToParts(RangeFromParts(start, end)) == (start, end)
  {
  }

  /** Every range whose ends stay below `i32::MAX` survives the trip through its parts. */
  lemma RangeRoundTrip(r: AW.VersionRange)
    requires r.start.value < I32_MAX && r.end.value < I32_MAX
    ensures RangePartsInBounds(RangeToParts(r).0, RangeToParts(r).1)
    ensures RangeFromParts(RangeToParts(r).0, RangeToParts(r).1) == r
  {
  }

  // ---- WriteEventsCompleted ----

  /** An optional wire position through `LogPosition::try_from`; an invalid one is an error. */
  function OptionalPosition(p: Option<I64>): (r: Result<Option<LP.LogPosition>, Errors.ErrorKind>)
    ensures r.Err? <==> p.Some? && p.value < -1
    ensures r.Err? ==> r.error == Errors.UnderflowLogPosition(p.value)
    ensures r.Ok? ==> r.value.Some? == p.Some?
    ensures r.Ok? && p.Some? ==> LP.ToI64(r.value.value) == p.value && LP.WellFormed(r.value.value)
  {
    match p
    case None => Ok(None)
    case Some(v) =>
      var x :- LP.TryFromI64(v);
      Ok(Some(x))
  }

  /** `position.map(|x| x.into())`. */
  function OptionalPositionToI64(p: Option<LP.LogPosition>): (r: Option<I64>)
    ensures r.Some? == p.Some?
  {
    if p.Some? then Some(LP.ToI64(p.value)) else None
  }

  predicate WellFormedPosition(p: Option<LP.LogPosition>) {
    p.Some? ==> LP.WellFormed(p.value)
  }

  /** The completions `try_from` can convert without panicking. */
  predicate WriteEventsCompletedAdaptable(msg: WM.WriteEventsCompleted) {
    msg.result == Some(OR.Success) ==> RangePartsInBounds(msg.firstEventNumber, msg.lastEventNumber)
  }

  /**
   * `CustomTryFrom<WriteEventsCompleted>`: a missing result and
   * `InvalidTransaction` are conversion errors, the other failing codes are
   * typed failures, and `Success` types the range and the positions.
   */
  function AdaptWriteEventsCompleted(msg: WM.WriteEventsCompleted)
    : (r: Result<Result<AW.WriteEventsCompleted, AW.WriteEventsFailure>, (WM.WriteEventsCompleted, Errors.ErrorKind)>)
    requires WriteEventsCompletedAdaptable(msg)
    ensures r.Err? ==> r.error.0 == msg
    ensures msg.result.None? ==> r == Err((msg, Errors.MissingResultField(Errors.WriteEvents)))
    ensures msg.result == Some(OR.InvalidTransaction) ==> r == Err((msg, Errors.WriteEventsInvalidTransaction))
    ensures msg.result.Some? && AW.IsFailureCode(msg.result.value) ==>
      r.Ok? && r.value.Err? && AW.ToOperationResult(r.value.error) == msg.result.value
    ensures msg.result == Some(OR.Success) ==>
      (r.Ok? <==> OptionalPosition(msg.preparePosition).Ok? && OptionalPosition(msg.commitPosition).Ok?)
    ensures r.Ok? && r.value.Ok? ==>
      msg.result == Some(OR.Success)
      && RangeToParts(r.value.value.eventNumbers) == (msg.firstEventNumber, msg.lastEventNumber)
      && OptionalPositionToI64(r.value.value.preparePosition) == msg.preparePosition
      && OptionalPositionToI64(r.value.value.commitPosition) == msg.commitPosition
  {
    if msg.result.None? then
      Err((msg, Errors.MissingResultField(Errors.WriteEvents)))
    else match msg.result.value
      case Success =>
        var range := RangeFromParts(msg.firstEventNumber, msg.lastEventNumber);
        RangePartsRoundTrip(msg.firstEventNumber, msg.lastEventNumber);
        (match OptionalPosition(msg.preparePosition)
         case Err(e) => Err((msg, e))
         case Ok(prepare) =>
           match OptionalPosition(msg.commitPosition)
           case Err(e) => Err((msg, e))
           case Ok(commit) => Ok(Ok(AW.WriteEventsCompleted(range, prepare, commit))))
      case InvalidTransaction =>
        Err((msg, Errors.WriteEventsInvalidTransaction))
      case _ =>
        AW.FailureRoundTrip(AW.PrepareTimeout, msg.result.value);
        Ok(Err(AW.FromOperationResult(msg.result.value)))
  }

  /** `as_raw` of a successful write: result `Success`, no message. */
  function WriteEventsCompletedAsRaw(c: AW.WriteEventsCompleted): (m: WM.WriteEventsCompleted)
    ensures m.result == Some(OR.Success) && m.message.None?
  {
    var parts := RangeToParts(c.eventNumbers);
    WM.WriteEventsCompleted(
      Some(OR.Success), None, parts.0, parts.1,
      OptionalPositionToI64(c.preparePosition), OptionalPositionToI64(c.commitPosition))
  }

  /** `as_raw` of a failed write: its code, no message, -1 for both event numbers, no positions. */
  function WriteEventsFailureAsRaw(f: AW.WriteEventsFailure): (m: WM.WriteEventsCompleted)
    ensures m.result.Some? && AW.IsFailureCode(m.result.value)
  {
    WM.WriteEventsCompleted(Some(AW.ToOperationResult(f)), None, -1, -1, None, None)
  }

  function WriteOutcomeAsRaw(o: Result<AW.WriteEventsCompleted, AW.WriteEventsFailure>): WM.WriteEventsCompleted {
    match o
    case Ok(c) => WriteEventsCompletedAsRaw(c)
    case Err(f) => WriteEventsFailureAsRaw(f)
  }

  /** A success whose range ends below `i32::MAX` and whose positions are well formed converts back to itself. */
  lemma WriteEventsCompletedRoundTrip(c: AW.WriteEventsCompleted)
    requires c.eventNumbers.start.value < I32_MAX && c.eventNumbers.end.value < I32_MAX
    requires WellFormedPosition(c.preparePosition) && WellFormedPosition(c.commitPosition)
    ensures WriteEventsCompletedAdaptable(WriteEventsCompletedAsRaw(c))
    ensures AdaptWriteEventsCompleted(WriteEventsCompletedAsRaw(c)) == Ok(Ok(c))
  {
    RangeRoundTrip(c.eventNumbers);
    if c.preparePosition.Some? {
      LP.PositionRoundTrip(c.preparePosition.value);
    }
    if c.commitPosition.Some? {
      LP.PositionRoundTrip(c.commitPosition.value);
    }
  }

  /** Every failure converts back to itself. */
  lemma WriteEventsFailureRoundTrip(f: AW.WriteEventsFailure)
    ensures AdaptWriteEventsCompleted(WriteEventsFailureAsRaw(f)) == Ok(Err(f))
  {
    AW.FailureRoundTrip(f, OR.Success);
  }

  /**
   * A completion without a message, and with the sentinel fill when it
   * failed, is what `as_raw` makes of its conversion.
   */
  lemma WriteEventsCompletedRawRoundTrip(msg: WM.WriteEventsCompleted)
    requires WriteEventsCompletedAdaptable(msg) && AdaptWriteEventsCompleted(msg).Ok?
    requires msg.message.None?
    requires msg.result != Some(OR.Success) ==>
      msg.firstEventNumber == -1 && msg.lastEventNumber == -1
      && msg.preparePosition.None? && msg.commitPosition.None?
    ensures WriteOutcomeAsRaw(AdaptWriteEventsCompleted(msg).value) == msg
  {
  }

  // ---- ReadEventCompleted ----

  /** `CustomTryFrom<ReadEventCompleted>`. */
  function AdaptReadEventCompleted(msg: RM.ReadEventCompleted)
    : (r: Result<Result<ER.ResolvedIndexedEvent, ARE.ReadEventError>, (RM.ReadEventCompleted, Errors.ErrorKind)>)
    ensures r.Err? <==> msg.result.None?
    ensures r.Err? ==> r.error == (msg, Errors.MissingResultField(Errors.ReadEvent))
    ensures r.Ok? ==> (r.value.Ok? <==> msg.result == Some(RER.Success))
    ensures r.Ok? && r.value.Ok? ==> r.value.value == msg.event
    ensures r.Ok? && r.value.Err? ==>
      ARE.ToResult(r.value.error)
      == (msg.result.value, if msg.result.value == RER.Error then msg.error else None)
  {
    if msg.result.None? then
      Err((msg, Errors.MissingResultField(Errors.ReadEvent)))
    else if msg.result.value == RER.Success then
      Ok(Ok(msg.event))
    else
      ARE.ErrorRoundTrip(ARE.NotFound, msg.result.value, msg.error);
      Ok(Err(ARE.FromResult(msg.result.value, msg.error)))
  }

  /** The event `as_raw` writes into a failed read: every field empty, zero or -1. */
  const SentinelEvent: ER.ResolvedIndexedEvent :=
    ER.ResolvedIndexedEvent(ER.EventRecord([], -1, [], [], 0, 0, [], None, None, None), None)

  /** `as_raw` of a read event: result `Success`, no message. */
  function ResolvedIndexedEventAsRaw(e: ER.ResolvedIndexedEvent): (m: RM.ReadEventCompleted)
    ensures m.result == Some(RER.Success) && m.error.None?
  {
    RM.ReadEventCompleted(Some(RER.Success), e, None)
  }

  /** `as_raw` of a failed read: its code and message around the sentinel event. */
  function ReadEventErrorAsRaw(err: ARE.ReadEventError): (m: RM.ReadEventCompleted)
    ensures m.result.Some? && m.result.value != RER.Success && m.event == SentinelEvent
  {
    var parts := ARE.ToResult(err);
    RM.ReadEventCompleted(Some(parts.0), SentinelEvent, parts.1)
  }

  function ReadEventOutcomeAsRaw(o: Result<ER.ResolvedIndexedEvent, ARE.ReadEventError>): RM.ReadEventCompleted {
    match o
    case Ok(e) => ResolvedIndexedEventAsRaw(e)
    case Err(err) => ReadEventErrorAsRaw(err)
  }

  /** Both outcomes of a single-event read convert back to themselves. */
  lemma ReadEventCompletedRoundTrip(o: Result<ER.ResolvedIndexedEvent, ARE.ReadEventError>)
    ensures AdaptReadEventCompleted(ReadEventOutcomeAsRaw(o)) == Ok(o)
  {
    if o.Err? {
      ARE.ErrorRoundTrip(o.error, RER.NotFound, None);
    }
  }

  /**
   * A completion without a stray message, and with the sentinel event when
   * it failed, is what `as_raw` makes of its conversion.
   */
  lemma ReadEventCompletedRawRoundTrip(msg: RM.ReadEventCompleted)
    requires msg.result.Some?
    requires msg.result.value != RER.Error ==> msg.error.None?
    requires msg.result.value != RER.Success ==> msg.event == SentinelEvent
    ensures ReadEventOutcomeAsRaw(AdaptReadEventCompleted(msg).value) == msg
  {
    if msg.result.value != RER.Success {
      ARE.ErrorRoundTrip(ARE.NotFound, msg.result.value, msg.error);
    }
  }

  // ---- ReadStreamEventsCompleted ----

  /**
   * `next_page`: `None` when reading backwards from a negative number,
   * otherwise `EventNumber::try_from`, which refuses negatives.
   */
  function NextPage(dir: ReadDirection, next: I32): (r: Result<Option<EN.EventNumber>, Errors.ErrorKind>)
    ensures (r.Ok? && r.value.None?) <==> dir.Backward? && next < 0
    ensures r.Err? <==> dir.Forward? && next < 0
    ensures r.Err? ==> r.error == Errors.InvalidStreamVersion(next)
    ensures r.Ok? && r.value.Some? ==> r.value.value.Exact? && EN.ToI32(r.value.value) == next
  {
    if dir.Backward? && next < 0 then Ok(None)
    else match EN.TryFromI32(next)
      case Ok(n) => Ok(Some(n))
      case Err(e) => Err(e)
  }

  /** The successful page a completion describes, once its numbers are checked. */
  function ReadStreamPage(dir: ReadDirection, msg: RM.ReadStreamEventsCompleted)
    : (r: Result<ARS.ReadStreamCompleted, Errors.ErrorKind>)
    ensures r.Ok? <==> NextPage(dir, msg.nextEventNumber).Ok? && msg.lastEventNumber >= 0
    ensures r.Err? ==> r.error == Errors.InvalidStreamVersion(
      if NextPage(dir, msg.nextEventNumber).Err? then msg.nextEventNumber else msg.lastEventNumber)
    ensures r.Ok? ==>
      r.value.events == msg.events
      && r.value.nextPage == NextPage(dir, msg.nextEventNumber).value
      && SV.ToI32(r.value.lastEventNumber) == msg.lastEventNumber
      && r.value.endOfStream == msg.isEndOfStream
      && r.value.lastCommitPosition == msg.lastCommitPosition
  {
    var nextPage :- NextPage(dir, msg.nextEventNumber);
    var last :- SV.TryFromI32(msg.lastEventNumber);
    Ok(ARS.ReadStreamCompleted(msg.events, nextPage, last, msg.isEndOfStream, msg.lastCommitPosition))
  }

  /**
   * `CustomTryFrom<(ReadDirection, ReadStreamEventsCompleted)>` as written:
   * the next and last event numbers are checked before the result code, so
   * a failed read whose numbers are -1 is a conversion error.
   */
  function AdaptReadStreamEventsCompletedAsWritten(dir: ReadDirection, msg: RM.ReadStreamEventsCompleted)
    : (r: Result<Result<ARS.ReadStreamCompleted, ARS.ReadStreamError>,
                 ((ReadDirection, RM.ReadStreamEventsCompleted), Errors.ErrorKind)>)
    ensures r.Err? ==> r.error.0 == (dir, msg)
    ensures msg.result.Some? ==> (r.Ok? <==> ReadStreamPage(dir, msg).Ok?)
  {
    if msg.result.None? then
      Err(((dir, msg), Errors.MissingResultField(Errors.ReadStream)))
    else match ReadStreamPage(dir, msg)
      case Err(e) => Err(((dir, msg), e))
      case Ok(page) =>
        if msg.result.value == RSR.Success then Ok(Ok(page))
        else Ok(Err(ARS.FromResult(msg.result.value, msg.error)))
  }

  /**
   * The conversion with the result code looked at first: the numbers are
   * checked only for a successful read, whose page they describe.
   */
  function AdaptReadStreamEventsCompleted(dir: ReadDirection, msg: RM.ReadStreamEventsCompleted)
    : (r: Result<Result<ARS.ReadStreamCompleted, ARS.ReadStreamError>,
                 ((ReadDirection, RM.ReadStreamEventsCompleted), Errors.ErrorKind)>)
    ensures r.Err? ==> r.error.0 == (dir, msg)
    ensures msg.result.None? ==> r == Err(((dir, msg), Errors.MissingResultField(Errors.ReadStream)))
    ensures msg.result.Some? && msg.result.value != RSR.Success ==>
      r.Ok? && r.value.Err?
      && ARS.ToResult(r.value.error)
         == (msg.result.value, if msg.result.value == RSR.Error then msg.error else None)
    ensures msg.result == Some(RSR.Success) ==>
      (r.Ok? <==> ReadStreamPage(dir, msg).Ok?) && (r.Ok? ==> r.value == Ok(ReadStreamPage(dir, msg).value))
  {
    if msg.result.None? then
      Err(((dir, msg), Errors.MissingResultField(Errors.ReadStream)))
    else if msg.result.value != RSR.Success then
      ARS.ErrorRoundTrip(ARS.NoStream, msg.result.value, msg.error);
      Ok(Err(ARS.FromResult(msg.result.value, msg.error)))
    else match ReadStreamPage(dir, msg)
      case Err(e) => Err(((dir, msg), e))
      case Ok(page) => Ok(Ok(page))
  }

  /** `as_raw` of a page: result `Success`, -1 when there is no next page, no message. */
  function ReadStreamCompletedAsRaw(c: ARS.ReadStreamCompleted): (m: RM.ReadStreamEventsCompleted)
    ensures m.result == Some(RSR.Success) && m.error.None?
  {
    RM.ReadStreamEventsCompleted(
      c.events, Some(RSR.Success),
      if c.nextPage.Some? then EN.ToI32(c.nextPage.value) else -1,
      SV.ToI32(c.lastEventNumber), c.endOfStream, c.lastCommitPosition, None)
  }

  /** `as_raw` of a failed read: no events, -1 for every number, its code and message. */
  function ReadStreamErrorAsRaw(err: ARS.ReadStreamError): (m: RM.ReadStreamEventsCompleted)
    ensures m.result.Some? && m.result.value != RSR.Success
    ensures m.nextEventNumber == -1 && m.lastEventNumber == -1
  {
    var parts := ARS.ToResult(err);
    RM.ReadStreamEventsCompleted([], Some(parts.0), -1, -1, false, -1, parts.1)
  }

  function ReadStreamOutcomeAsRaw(o: Result<ARS.ReadStreamCompleted, ARS.ReadStreamError>)
    : RM.ReadStreamEventsCompleted
  {
    match o
    case Ok(c) => ReadStreamCompletedAsRaw(c)
    case Err(err) => ReadStreamErrorAsRaw(err)
  }

  /**
   * As written, no failed read that `as_raw` produces converts back: its last
   * event number -1 is refused before the result code is looked at.
   */
  lemma AsWrittenRefusesFailedReads(dir: ReadDirection, err: ARS.ReadStreamError)
    ensures AdaptReadStreamEventsCompletedAsWritten(dir, ReadStreamErrorAsRaw(err))
            == Err(((dir, ReadStreamErrorAsRaw(err)), Errors.InvalidStreamVersion(-1)))
  {
  }

  /** With the result code looked at first, every failed read converts back to itself. */
  lemma ReadStreamErrorRoundTrip(dir: ReadDirection, err: ARS.ReadStreamError)
    ensures AdaptReadStreamEventsCompleted(dir, ReadStreamErrorAsRaw(err)) == Ok(Err(err))
  {
    ARS.ErrorRoundTrip(err, RSR.NoStream, None);
  }

  /**
   * The two conversions agree on every successful read and wherever the
   * conversion as written succeeds; they differ only on failed reads whose
   * numbers are out of range.
   */
  lemma CorrectedAgreesWithAsWritten(dir: ReadDirection, msg: RM.ReadStreamEventsCompleted)
    ensures AdaptReadStreamEventsCompletedAsWritten(dir, msg) != AdaptReadStreamEventsCompleted(dir, msg) ==>
      msg.result.Some? && msg.result.value != RSR.Success
      && AdaptReadStreamEventsCompletedAsWritten(dir, msg).Err? && AdaptReadStreamEventsCompleted(dir, msg).Ok?
  {
  }

  /**
   * A page converts back to itself when its next page is an exact event
   * number, or absent on a backward read.
   */
  lemma ReadStreamCompletedRoundTrip(dir: ReadDirection, c: ARS.ReadStreamCompleted)
    requires c.nextPage.None? ==> dir == Backward
    requires c.nextPage.Some? ==> c.nextPage.value.Exact?
    ensures AdaptReadStreamEventsCompleted(dir, ReadStreamCompletedAsRaw(c)) == Ok(Ok(c))
  {
    SV.I32RoundTrip(c.lastEventNumber);
    if c.nextPage.Some? {
      SV.I32RoundTrip(c.nextPage.value.version);
    }
  }

  /**
   * A completion without a stray message, with -1 as its next number when
   * that is negative, and with the sentinel fill when it failed, is what
   * `as_raw` makes of its conversion.
   */
  lemma ReadStreamEventsCompletedRawRoundTrip(dir: ReadDirection, msg: RM.ReadStreamEventsCompleted)
    requires AdaptReadStreamEventsCompleted(dir, msg).Ok?
    requires msg.result.value != RSR.Error ==> msg.error.None?
    requires msg.nextEventNumber < 0 ==> msg.nextEventNumber == -1
    requires msg.result.value != RSR.Success ==>
      msg.events == [] && msg.nextEventNumber == -1 && msg.lastEventNumber == -1
      && !msg.isEndOfStream && msg.lastCommitPosition == -1
    ensures ReadStreamOutcomeAsRaw(AdaptReadStreamEventsCompleted(dir, msg).value) == msg
  {
    if msg.result.value != RSR.Success {
      ARS.ErrorRoundTrip(ARS.NoStream, msg.result.value, msg.error);
    }
  }

  // ---- ReadAllEventsCompleted ----

  /** The completions `try_from` can convert without panicking on an event's position. */
  predicate ReadAllEventsCompletedAdaptable(msg: RM.ReadAllEventsCompleted) {
    msg.result == RAR.Success && msg.commitPosition >= -1 && msg.preparePosition >= -1 ==>
      forall i :: 0 <= i < |msg.events| ==> ARA.HasPositions(msg.events[i])
  }

  /**
   * `CustomTryFrom<(ReadDirection, ReadAllEventsCompleted)>`: an invalid next
   * position becomes `None`, an invalid position of a successful read is a
   * conversion error, and a failing code is a typed failure.
   */
  function AdaptReadAllEventsCompleted(dir: ReadDirection, msg: RM.ReadAllEventsCompleted)
    : (r: Result<Result<ARA.ReadAllCompleted, ARA.ReadAllError>,
                 ((ReadDirection, RM.ReadAllEventsCompleted), Errors.ErrorKind)>)
    requires ReadAllEventsCompletedAdaptable(msg)
    ensures r.Err? <==> msg.result == RAR.Success && (msg.commitPosition < -1 || msg.preparePosition < -1)
    ensures r.Err? ==> r.error == ((dir, msg), Errors.UnderflowLogPosition(
      if msg.commitPosition < -1 then msg.commitPosition else msg.preparePosition))
    ensures r.Ok? ==> (r.value.Err? <==> msg.result != RAR.Success)
    ensures r.Ok? && r.value.Err? ==>
      ARA.ToResult(r.value.error) == msg.result
      && (r.value.error.Error? ==> r.value.error.message == msg.error)
    ensures r.Ok? && r.value.Ok? ==>
      LP.ToI64(r.value.value.commitPosition) == msg.commitPosition
      && LP.ToI64(r.value.value.preparePosition) == msg.preparePosition
      && (r.value.value.nextCommitPosition.None? <==> msg.nextCommitPosition < -1)
      && (r.value.value.nextCommitPosition.Some? ==>
            LP.ToI64(r.value.value.nextCommitPosition.value) == msg.nextCommitPosition)
      && (r.value.value.nextPreparePosition.None? <==> msg.nextPreparePosition < -1)
      && (r.value.value.nextPreparePosition.Some? ==>
            LP.ToI64(r.value.value.nextPreparePosition.value) == msg.nextPreparePosition)
      && |r.value.value.events| == |msg.events|
  {
    var nextCommit := LP.TryFromI64(msg.nextCommitPosition).ToOption();
    var nextPrepare := LP.TryFromI64(msg.nextPreparePosition).ToOption();
    if msg.result == RAR.Success then
      match LP.TryFromI64(msg.commitPosition)
      case Err(e) => Err(((dir, msg), e))
      case Ok(commit) =>
        match LP.TryFromI64(msg.preparePosition)
        case Err(e) => Err(((dir, msg), e))
        case Ok(prepare) =>
          Ok(Ok(ARA.ReadAllCompleted(commit, prepare, ARA.FromResolvedEvents(msg.events), nextCommit, nextPrepare)))
    else
      ARA.ErrorKeepsCode(msg.result, msg.error);
      Ok(Err(ARA.FromResult(msg.result, msg.error)))
  }

  /** The events of a converted page are the wire events with their positions typed. */
  lemma ReadAllEventsCompletedKeepsEvents(dir: ReadDirection, msg: RM.ReadAllEventsCompleted, i: nat)
    requires ReadAllEventsCompletedAdaptable(msg)
    requires AdaptReadAllEventsCompleted(dir, msg).Ok? && AdaptReadAllEventsCompleted(dir, msg).value.Ok?
    requires i < |msg.events|
    ensures var e := AdaptReadAllEventsCompleted(dir, msg).value.value.events[i];
      e.event == msg.events[i].event && e.link == msg.events[i].link
      && LP.ToI64(e.commitPosition) == msg.events[i].commitPosition
      && LP.ToI64(e.preparePosition) == msg.events[i].preparePosition
  {
  }

  // ---- the whole message ----

  /** The raw messages `try_from` converts without panicking. */
  predicate Adaptable(raw: Raw.RawMessage) {
    match raw
    case WriteEventsCompleted(m) => WriteEventsCompletedAdaptable(m)
    case ReadAllEventsCompleted(_, m) => ReadAllEventsCompletedAdaptable(m)
    case _ => true
  }

  /**
   * `CustomTryFrom<RawMessage>`: every failure hands the raw message back
   * unchanged with the reason.
   */
  function TryFrom(raw: Raw.RawMessage): (r: Result<AdaptedMessage, (Raw.RawMessage, Errors.ErrorKind)>)
    requires Adaptable(raw)
    ensures r.Err? ==> r.error.0 == raw
    ensures raw.Unsupported? ==> r == Err((raw, Errors.UnsupportedDiscriminator(raw.discriminator)))
    ensures raw.NotHandled? || raw.DeleteStream? || raw.DeleteStreamCompleted? ==>
      r == Err((raw, Errors.UnimplementedConversion))
    ensures raw.BadRequest? ==>
      (r.Ok? <==> IsUtf8(raw.badRequest)) && (r.Ok? ==> r.value == BadRequest(raw.badRequest))
      && (r.Err? ==> r.error.1 == Errors.Utf8Error)
    ensures raw.NotAuthenticated? ==>
      (r.Ok? <==> IsUtf8(raw.notAuthenticated)) && (r.Ok? ==> r.value == NotAuthenticated(raw.notAuthenticated))
      && (r.Err? ==> r.error.1 == Errors.Utf8Error)
    ensures !raw.Unsupported? && Raw.IsDataless(Raw.Discriminator(raw)) ==> r.Ok?
    ensures raw.WriteEvents? || raw.ReadEvent? || raw.ReadStreamEvents? || raw.ReadAllEvents? ==> r.Ok?
  {
    match raw
    case HeartbeatRequest => Ok(HeartbeatRequest)
    case HeartbeatResponse => Ok(HeartbeatResponse)
    case Ping => Ok(Ping)
    case Pong => Ok(Pong)
    case WriteEvents(e) => Ok(WriteEvents(e))
    case WriteEventsCompleted(e) =>
      (match AdaptWriteEventsCompleted(e)
       case Ok(o) => Ok(WriteEventsCompleted(o))
       case Err(p) => Err((Raw.WriteEventsCompleted(p.0), p.1)))
    case ReadEvent(e) => Ok(ReadEvent(e))
    case ReadEventCompleted(e) =>
      (match AdaptReadEventCompleted(e)
       case Ok(o) => Ok(ReadEventCompleted(o))
       case Err(p) => Err((Raw.ReadEventCompleted(p.0), p.1)))
    case ReadStreamEvents(dir, e) => Ok(ReadStreamEvents(dir, e))
    case ReadStreamEventsCompleted(dir, e) =>
      (match AdaptReadStreamEventsCompletedAsWritten(dir, e)
       case Ok(o) => Ok(ReadStreamEventsCompleted(dir, o))
       case Err(p) => Err((Raw.ReadStreamEventsCompleted(p.0.0, p.0.1), p.1)))
    case ReadAllEvents(dir, e) => Ok(ReadAllEvents(dir, e))
    case ReadAllEventsCompleted(dir, e) =>
      (match AdaptReadAllEventsCompleted(dir, e)
       case Ok(o) => Ok(ReadAllEventsCompleted(dir, o))
       case Err(p) => Err((Raw.ReadAllEventsCompleted(p.0.0, p.0.1), p.1)))
    case BadRequest(bytes) =>
      (match Raw.IntoStr(bytes)
       case Ok(s) => Ok(BadRequest(s))
       case Err(p) => Err((Raw.BadRequest(p.0), p.1)))
    case NotAuthenticated(bytes) =>
      (match Raw.IntoStr(bytes)
       case Ok(s) => Ok(NotAuthenticated(s))
       case Err(p) => Err((Raw.NotAuthenticated(p.0), p.1)))
    case Authenticate => Ok(Authenticate)
    case Authenticated => Ok(Authenticated)
    case Unsupported(d, _) => Err((raw, Errors.UnsupportedDiscriminator(d)))
    case _ => Err((raw, Errors.UnimplementedConversion))
  }

  /** `as_raw` is `unimplemented!()` for `NotHandled` and for both outcomes of a read of the whole log. */
  predicate HasRaw(a: AdaptedMessage) {
    !a.NotHandled? && !a.ReadAllEventsCompleted?
  }

  /** `as_raw`: the raw message to encode for an adapted one. */
  function AsRaw(a: AdaptedMessage): (r: Raw.RawMessage)
    requires HasRaw(a)
    ensures Raw.IsKnown(Raw.Discriminator(r)) && !r.Unsupported?
    ensures !r.DeleteStream? && !r.DeleteStreamCompleted? && !r.NotHandled? && !r.ReadAllEventsCompleted?
  {
    match a
    case HeartbeatRequest => Raw.HeartbeatRequest
    case HeartbeatResponse => Raw.HeartbeatResponse
    case Ping => Raw.Ping
    case Pong => Raw.Pong
    case Authenticate => Raw.Authenticate
    case Authenticated => Raw.Authenticated
    case WriteEvents(e) => Raw.WriteEvents(e)
    case WriteEventsCompleted(o) => Raw.WriteEventsCompleted(WriteOutcomeAsRaw(o))
    case ReadEvent(e) => Raw.ReadEvent(e)
    case ReadEventCompleted(o) => Raw.ReadEventCompleted(ReadEventOutcomeAsRaw(o))
    case ReadStreamEvents(dir, e) => Raw.ReadStreamEvents(dir, e)
    case ReadStreamEventsCompleted(dir, o) => Raw.ReadStreamEventsCompleted(dir, ReadStreamOutcomeAsRaw(o))
    case ReadAllEvents(dir, e) => Raw.ReadAllEvents(dir, e)
    case BadRequest(s) => Raw.BadRequest(s)
    case NotAuthenticated(s) => Raw.NotAuthenticated(s)
  }

  /**
   * The adapted messages that survive `as_raw`: a write's range ends below
   * `i32::MAX` with well-formed positions, a page's next page is exact or
   * absent on a backward read, no failed stream read (its -1 numbers are
   * refused on the way back), and strings are well-formed UTF-8.
   */
  predicate Reversible(a: AdaptedMessage) {
    match a
    case WriteEventsCompleted(Ok(c)) =>
      c.eventNumbers.start.value < I32_MAX && c.eventNumbers.end.value < I32_MAX
      && WellFormedPosition(c.preparePosition) && WellFormedPosition(c.commitPosition)
    case ReadStreamEventsCompleted(dir, Ok(c)) =>
      (c.nextPage.None? ==> dir == Backward) && (c.nextPage.Some? ==> c.nextPage.value.Exact?)
    case ReadStreamEventsCompleted(_, Err(_)) => false
    case BadRequest(s) => IsUtf8(s)
    case NotAuthenticated(s) => IsUtf8(s)
    case _ => true
  }

  /** Converting `as_raw`'s output back gives the adapted message again. */
  lemma AdaptedRoundTrip(a: AdaptedMessage)
    requires HasRaw(a) && Reversible(a)
    ensures Adaptable(AsRaw(a)) && TryFrom(AsRaw(a)) == Ok(a)
  {
    match a
    case WriteEventsCompleted(o) =>
      if o.Ok? {
        WriteEventsCompletedRoundTrip(o.value);
      } else {
        WriteEventsFailureRoundTrip(o.error);
      }
    case ReadEventCompleted(o) =>
      ReadEventCompletedRoundTrip(o);
    case ReadStreamEventsCompleted(dir, o) =>
      ReadStreamCompletedRoundTrip(dir, o.value);
      CorrectedAgreesWithAsWritten(dir, ReadStreamCompletedAsRaw(o.value));
    case _ =>
  }

  /** A failed stream read does not survive `as_raw`: converting it back refuses its last event number. */
  lemma FailedReadNotReversible(dir: ReadDirection, err: ARS.ReadStreamError)
    ensures var raw := AsRaw(ReadStreamEventsCompleted(dir, Err(err)));
      Adaptable(raw) && TryFrom(raw) == Err((raw, Errors.InvalidStreamVersion(-1)))
  {
    AsWrittenRefusesFailedReads(dir, err);
  }
}
