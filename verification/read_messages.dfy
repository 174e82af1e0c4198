/**
 * The read messages and `NotHandled` (src/client_messages.rs):
 * `ReadEvent`, `ReadEventCompleted`, `ReadStreamEvents`,
 * `ReadStreamEventsCompleted`, `ReadAllEvents`, `ReadAllEventsCompleted`
 * and `NotHandled`. As elsewhere, `...Step` is the match in `from_reader`,
 * `...Fields` the fields `write_message` writes, in order, and each message
 * reads back as written.
 */
module ReadMessages {
  import opened Ints
  import opened Wrappers
  import Errors
  import opened Utf8
  import opened Protobuf
  import opened EventRecords
  import ReadEventResults
  import ReadStreamResults
  import ReadAllResults
  import NotHandledReasons

  // ---- ReadEvent ----

  datatype ReadEvent = ReadEvent(
    eventStreamId: seq<Byte>,
    eventNumber: I32,
    resolveLinkTos: bool,
    requireMaster: bool)

  const ReadEventDefault: ReadEvent := ReadEvent([], 0, false, false)

  predicate ReadEventValid(m: ReadEvent) {
    IsUtf8(m.eventStreamId)
  }

  function ReadEventStep(m: ReadEvent, f: Field): Result<ReadEvent, Errors.ErrorKind> {
    match f
    case Field(1, LengthDelimited(b)) => var s :- ToString(b); Ok(m.(eventStreamId := s))
    case Field(2, Varint(n)) => Ok(m.(eventNumber := ToInt32(n)))
    case Field(3, Varint(n)) => Ok(m.(resolveLinkTos := ToBool(n)))
    case Field(4, Varint(n)) => Ok(m.(requireMaster := ToBool(n)))
    case _ => Ok(m)
  }

  function ReadEventFields(m: ReadEvent): seq<Field> {
    [BytesField(1, m.eventStreamId), Int32Field(2, m.eventNumber),
     BoolField(3, m.resolveLinkTos), BoolField(4, m.requireMaster)]
  }

  function DecodeReadEvent(bytes: seq<Byte>): Result<ReadEvent, Errors.ErrorKind> {
    ReadFields(ReadEventStep, ReadEventDefault, bytes)
  }

  function EncodeReadEvent(m: ReadEvent): seq<Byte> {
    Serialize(ReadEventFields(m))
  }

  lemma ReadEventFold(m: ReadEvent)
    requires ReadEventValid(m)
    ensures FoldFields(ReadEventStep, ReadEventDefault, ReadEventFields(m), 0) == Ok(m)
  {
    var S := ReadEventStep;
    var fs := ReadEventFields(m);
    Int32RoundTrip(m.eventNumber);
    BoolRoundTrip(m.resolveLinkTos);
    BoolRoundTrip(m.requireMaster);
    var m1 := ReadEventDefault.(eventStreamId := m.eventStreamId);
    var m2 := m1.(eventNumber := m.eventNumber);
    var m3 := m2.(resolveLinkTos := m.resolveLinkTos);
    assert FoldFields(S, ReadEventDefault, fs, 0) == FoldFields(S, m1, fs, 1);
    assert FoldFields(S, m1, fs, 1) == FoldFields(S, m2, fs, 2);
    assert FoldFields(S, m2, fs, 2) == FoldFields(S, m3, fs, 3);
    assert FoldFields(S, m3, fs, 3) == FoldFields(S, m, fs, 4);
  }

  lemma ReadEventRoundTrip(m: ReadEvent)
    requires ReadEventValid(m)
    ensures DecodeReadEvent(EncodeReadEvent(m)) == Ok(m)
  {
    ReadMessage(ReadEventStep, ReadEventDefault, ReadEventFields(m));
    ReadEventFold(m);
  }

  // ---- ReadEventCompleted ----

  datatype ReadEventCompleted = ReadEventCompleted(
    result: Option<ReadEventResults.ReadEventResult>,
    event: ResolvedIndexedEvent,
    error: Option<seq<Byte>>)

  const ReadEventCompletedDefault: ReadEventCompleted := ReadEventCompleted(None, ResolvedIndexedEventDefault, None)

  predicate ReadEventCompletedValid(m: ReadEventCompleted) {
    ResolvedIndexedEventValid(m.event) && (m.error.Some? ==> IsUtf8(m.error.value))
  }

  /** Field 2 is a nested `ResolvedIndexedEvent`, read with its own `from_reader`. */
  function ReadEventCompletedStep(m: ReadEventCompleted, f: Field): Result<ReadEventCompleted, Errors.ErrorKind> {
    match f
    case Field(1, Varint(n)) => Ok(m.(result := Some(ReadEventResults.FromI32(ToInt32(n)))))
    case Field(2, LengthDelimited(b)) => var e :- DecodeResolvedIndexedEvent(b); Ok(m.(event := e))
    case Field(3, LengthDelimited(b)) => var s :- ToString(b); Ok(m.(error := Some(s)))
    case _ => Ok(m)
  }

  function ReadEventCompletedHead(m: ReadEventCompleted): seq<Field> {
    Present(m.result, r => Int32Field(1, ReadEventResults.ToI32(r)))
    + [MessageField(2, ResolvedIndexedEventFields(m.event))]
  }

  /** The event is always written; the result and the error only when present. */
  function ReadEventCompletedFields(m: ReadEventCompleted): seq<Field> {
    ReadEventCompletedHead(m) + Present(m.error, s => BytesField(3, s))
  }

  function DecodeReadEventCompleted(bytes: seq<Byte>): Result<ReadEventCompleted, Errors.ErrorKind> {
    ReadFields(ReadEventCompletedStep, ReadEventCompletedDefault, bytes)
  }

  function EncodeReadEventCompleted(m: ReadEventCompleted): seq<Byte> {
    Serialize(ReadEventCompletedFields(m))
  }

  lemma ReadEventCompletedReadsEvent(m: ReadEventCompleted, e: ResolvedIndexedEvent)
    requires ResolvedIndexedEventValid(e)
    ensures ReadEventCompletedStep(m, MessageField(2, ResolvedIndexedEventFields(e))) == Ok(m.(event := e))
  {
    ResolvedIndexedEventRoundTrip(e);
    assert DecodeResolvedIndexedEvent(Serialize(ResolvedIndexedEventFields(e))) == Ok(e);
  }

  lemma ReadEventCompletedHeadRead(m: ReadEventCompleted)
    requires ResolvedIndexedEventValid(m.event)
    ensures FoldFields(ReadEventCompletedStep, ReadEventCompletedDefault, ReadEventCompletedHead(m), 0)
            == Ok(m.(error := None))
  {
    var S := ReadEventCompletedStep;
    var fs := ReadEventCompletedHead(m);
    var acc, k := ReadEventCompletedDefault, 0;
    if m.result.Some? {
      ReadEventResults.RoundTrip(m.result.value);
      Int32RoundTrip(ReadEventResults.ToI32(m.result.value));
      assert FoldFields(S, acc, fs, k) == FoldFields(S, acc.(result := m.result), fs, k + 1);
      acc, k := acc.(result := m.result), k + 1;
    }
    ReadEventCompletedReadsEvent(acc, m.event);
    assert fs[k] == MessageField(2, ResolvedIndexedEventFields(m.event));
    assert FoldFields(S, acc, fs, k) == FoldFields(S, acc.(event := m.event), fs, k + 1);
  }

  lemma ReadEventCompletedFold(m: ReadEventCompleted)
    requires ReadEventCompletedValid(m)
    ensures FoldFields(ReadEventCompletedStep, ReadEventCompletedDefault, ReadEventCompletedFields(m), 0) == Ok(m)
  {
    var mid := m.(error := None);
    var tail := Present(m.error, s => BytesField(3, s));
    ReadEventCompletedHeadRead(m);
    if m.error.Some? {
      FoldSingle(ReadEventCompletedStep, mid, BytesField(3, m.error.value));
    }
    FoldSnoc(ReadEventCompletedStep, ReadEventCompletedDefault, ReadEventCompletedHead(m), tail, mid, m);
  }

  /** The nested event comes back as written, and so do the optional fields. */
  lemma ReadEventCompletedRoundTrip(m: ReadEventCompleted)
    requires ReadEventCompletedValid(m)
    ensures DecodeReadEventCompleted(EncodeReadEventCompleted(m)) == Ok(m)
  {
    ReadMessage(ReadEventCompletedStep, ReadEventCompletedDefault, ReadEventCompletedFields(m));
    ReadEventCompletedFold(m);
  }

  // ---- ReadStreamEvents ----

  datatype ReadStreamEvents = ReadStreamEvents(
    eventStreamId: seq<Byte>,
    fromEventNumber: I32,
    maxCount: I32,
    resolveLinkTos: bool,
    requireMaster: bool)

  const ReadStreamEventsDefault: ReadStreamEvents := ReadStreamEvents([], 0, 0, false, false)

  predicate ReadStreamEventsValid(m: ReadStreamEvents) {
    IsUtf8(m.eventStreamId)
  }

  function ReadStreamEventsStep(m: ReadStreamEvents, f: Field): Result<ReadStreamEvents, Errors.ErrorKind> {
    match f
    case Field(1, LengthDelimited(b)) => var s :- ToString(b); Ok(m.(eventStreamId := s))
    case Field(2, Varint(n)) => Ok(m.(fromEventNumber := ToInt32(n)))
    case Field(3, Varint(n)) => Ok(m.(maxCount := ToInt32(n)))
    case Field(4, Varint(n)) => Ok(m.(resolveLinkTos := ToBool(n)))
    case Field(5, Varint(n)) => Ok(m.(requireMaster := ToBool(n)))
    case _ => Ok(m)
  }

  function ReadStreamEventsHead(m: ReadStreamEvents): seq<Field> {
    [BytesField(1, m.eventStreamId), Int32Field(2, m.fromEventNumber), Int32Field(3, m.maxCount)]
  }

  function ReadStreamEventsTail(m: ReadStreamEvents): seq<Field> {
    [BoolField(4, m.resolveLinkTos), BoolField(5, m.requireMaster)]
  }

  function ReadStreamEventsFields(m: ReadStreamEvents): seq<Field> {
    ReadStreamEventsHead(m) + ReadStreamEventsTail(m)
  }

  function DecodeReadStreamEvents(bytes: seq<Byte>): Result<ReadStreamEvents, Errors.ErrorKind> {
    ReadFields(ReadStreamEventsStep, ReadStreamEventsDefault, bytes)
  }

  function EncodeReadStreamEvents(m: ReadStreamEvents): seq<Byte> {
    Serialize(ReadStreamEventsFields(m))
  }

  lemma ReadStreamEventsHeadRead(m: ReadStreamEvents)
    requires ReadStreamEventsValid(m)
    ensures FoldFields(ReadStreamEventsStep, ReadStreamEventsDefault, ReadStreamEventsHead(m), 0)
            == Ok(m.(resolveLinkTos := false, requireMaster := false))
  {
    var S := ReadStreamEventsStep;
    var fs := ReadStreamEventsHead(m);
    Int32RoundTrip(m.fromEventNumber);
    Int32RoundTrip(m.maxCount);
    var m1 := ReadStreamEventsDefault.(eventStreamId := m.eventStreamId);
    var m2 := m1.(fromEventNumber := m.fromEventNumber);
    assert FoldFields(S, ReadStreamEventsDefault, fs, 0) == FoldFields(S, m1, fs, 1);
    assert FoldFields(S, m1, fs, 1) == FoldFields(S, m2, fs, 2);
    assert FoldFields(S, m2, fs, 2) == FoldFields(S, m2.(maxCount := m.maxCount), fs, 3);
  }

  lemma ReadStreamEventsTailRead(m: ReadStreamEvents)
    ensures FoldFields(ReadStreamEventsStep, m.(resolveLinkTos := false, requireMaster := false),
                       ReadStreamEventsTail(m), 0) == Ok(m)
  {
    var S := ReadStreamEventsStep;
    var fs := ReadStreamEventsTail(m);
    BoolRoundTrip(m.resolveLinkTos);
    BoolRoundTrip(m.requireMaster);
    var m0 := m.(resolveLinkTos := false, requireMaster := false);
    var m1 := m0.(resolveLinkTos := m.resolveLinkTos);
    assert FoldFields(S, m0, fs, 0) == FoldFields(S, m1, fs, 1);
    assert FoldFields(S, m1, fs, 1) == FoldFields(S, m, fs, 2);
  }

  lemma ReadStreamEventsRoundTrip(m: ReadStreamEvents)
    requires ReadStreamEventsValid(m)
    ensures DecodeReadStreamEvents(EncodeReadStreamEvents(m)) == Ok(m)
  {
    var mid := m.(resolveLinkTos := false, requireMaster := false);
    ReadMessage(ReadStreamEventsStep, ReadStreamEventsDefault, ReadStreamEventsFields(m));
    ReadStreamEventsHeadRead(m);
    ReadStreamEventsTailRead(m);
    FoldSnoc(ReadStreamEventsStep, ReadStreamEventsDefault, ReadStreamEventsHead(m), ReadStreamEventsTail(m), mid, m);
  }

  // ---- ReadStreamEventsCompleted ----

  datatype ReadStreamEventsCompleted = ReadStreamEventsCompleted(
    events: seq<ResolvedIndexedEvent>,
    result: Option<ReadStreamResults.ReadStreamResult>,
    nextEventNumber: I32,
    lastEventNumber: I32,
    isEndOfStream: bool,
    lastCommitPosition: I64,
    error: Option<seq<Byte>>)

  const ReadStreamEventsCompletedDefault: ReadStreamEventsCompleted :=
    ReadStreamEventsCompleted([], None, 0, 0, false, 0, None)

  predicate ReadStreamEventsCompletedValid(m: ReadStreamEventsCompleted) {
    (forall i :: 0 <= i < |m.events| ==> ResolvedIndexedEventValid(m.events[i]))
    && (m.error.Some? ==> IsUtf8(m.error.value))
  }

  /** Field 1 is repeated: every occurrence is pushed onto `events`. */
  function ReadStreamEventsCompletedStep(m: ReadStreamEventsCompleted, f: Field)
    : Result<ReadStreamEventsCompleted, Errors.ErrorKind>
  {
    match f
    case Field(1, LengthDelimited(b)) => var e :- DecodeResolvedIndexedEvent(b); Ok(m.(events := m.events + [e]))
    case Field(2, Varint(n)) => Ok(m.(result := Some(ReadStreamResults.FromI32(ToInt32(n)))))
    case Field(3, Varint(n)) => Ok(m.(nextEventNumber := ToInt32(n)))
    case Field(4, Varint(n)) => Ok(m.(lastEventNumber := ToInt32(n)))
    case Field(5, Varint(n)) => Ok(m.(isEndOfStream := ToBool(n)))
    case Field(6, Varint(n)) => Ok(m.(lastCommitPosition := ToInt64(n)))
    case Field(7, LengthDelimited(b)) => var s :- ToString(b); Ok(m.(error := Some(s)))
    case _ => Ok(m)
  }

  /** `for s in &self.events`: one field 1 per event, in vector order. */
  function IndexedEventsFields(events: seq<ResolvedIndexedEvent>): (r: seq<Field>)
    ensures |r| == |events|
  {
    seq(|events|, i requires 0 <= i < |events| => MessageField(1, ResolvedIndexedEventFields(events[i])))
  }

  function ReadStreamEventsCompletedStatus(m: ReadStreamEventsCompleted): seq<Field> {
    Present(m.result, r => Int32Field(2, ReadStreamResults.ToI32(r)))
    + [Int32Field(3, m.nextEventNumber), Int32Field(4, m.lastEventNumber)]
  }

  function ReadStreamEventsCompletedEnd(m: ReadStreamEventsCompleted): seq<Field> {
    [BoolField(5, m.isEndOfStream), Int64Field(6, m.lastCommitPosition)]
    + Present(m.error, s => BytesField(7, s))
  }

  function ReadStreamEventsCompletedTail(m: ReadStreamEventsCompleted): seq<Field> {
    ReadStreamEventsCompletedStatus(m) + ReadStreamEventsCompletedEnd(m)
  }

  function ReadStreamEventsCompletedFields(m: ReadStreamEventsCompleted): seq<Field> {
    IndexedEventsFields(m.events) + ReadStreamEventsCompletedTail(m)
  }

  function DecodeReadStreamEventsCompleted(bytes: seq<Byte>): Result<ReadStreamEventsCompleted, Errors.ErrorKind> {
    ReadFields(ReadStreamEventsCompletedStep, ReadStreamEventsCompletedDefault, bytes)
  }

  function EncodeReadStreamEventsCompleted(m: ReadStreamEventsCompleted): seq<Byte> {
    Serialize(ReadStreamEventsCompletedFields(m))
  }

  lemma ReadStreamEventsCompletedReadsEvent(m: ReadStreamEventsCompleted, e: ResolvedIndexedEvent)
    requires ResolvedIndexedEventValid(e)
    ensures ReadStreamEventsCompletedStep(m, MessageField(1, ResolvedIndexedEventFields(e)))
            == Ok(m.(events := m.events + [e]))
  {
    ResolvedIndexedEventRoundTrip(e);
    assert DecodeResolvedIndexedEvent(Serialize(ResolvedIndexedEventFields(e))) == Ok(e);
  }

  /** One field of the repeated list pushes its event. */
  lemma ReadStreamEventsCompletedPushesEvent(m: ReadStreamEventsCompleted, events: seq<ResolvedIndexedEvent>, j: nat)
    requires j < |events| && ResolvedIndexedEventValid(events[j])
    ensures ReadStreamEventsCompletedStep(m, IndexedEventsFields(events)[j]) == Ok(m.(events := m.events + [events[j]]))
  {
    ReadStreamEventsCompletedReadsEvent(m, events[j]);
    assert IndexedEventsFields(events)[j] == MessageField(1, ResolvedIndexedEventFields(events[j]));
  }

  function PushIndexedEvent(m: ReadStreamEventsCompleted, e: ResolvedIndexedEvent): ReadStreamEventsCompleted {
    m.(events := m.events + [e])
  }

  lemma {:induction false} PushIndexedEventAll(m: ReadStreamEventsCompleted, events: seq<ResolvedIndexedEvent>)
    ensures PushAll(PushIndexedEvent, m, events) == m.(events := m.events + events)
    decreases |events|
  {
    if events != [] {
      PushIndexedEventAll(PushIndexedEvent(m, events[0]), events[1..]);
      assert m.events + [events[0]] + events[1..] == m.events + events;
    }
  }

  /** Repeated events are appended in the order they arrive. */
  lemma ReadStreamEventsCompletedAppendsEvents(m: ReadStreamEventsCompleted, events: seq<ResolvedIndexedEvent>)
    requires forall j :: 0 <= j < |events| ==> ResolvedIndexedEventValid(events[j])
    ensures FoldFields(ReadStreamEventsCompletedStep, m, IndexedEventsFields(events), 0) == Ok(m.(events := m.events + events))
  {
    var fs := IndexedEventsFields(events);
    forall x, j | 0 <= j < |fs| ensures ReadStreamEventsCompletedStep(x, fs[j]) == Ok(PushIndexedEvent(x, events[j])) {
      ReadStreamEventsCompletedPushesEvent(x, events, j);
    }
    FoldRepeated(ReadStreamEventsCompletedStep, PushIndexedEvent, m, fs, events, 0);
    assert events[0..] == events;
    PushIndexedEventAll(m, events);
  }

  lemma ReadStreamEventsCompletedStatusRead(m: ReadStreamEventsCompleted, start: ReadStreamEventsCompleted)
    requires start == ReadStreamEventsCompletedDefault.(events := m.events)
    ensures FoldFields(ReadStreamEventsCompletedStep, start, ReadStreamEventsCompletedStatus(m), 0)
            == Ok(m.(isEndOfStream := false, lastCommitPosition := 0, error := None))
  {
    var S := ReadStreamEventsCompletedStep;
    var fs := ReadStreamEventsCompletedStatus(m);
    var acc, k := start, 0;
    if m.result.Some? {
      ReadStreamResults.RoundTrip(m.result.value);
      Int32RoundTrip(ReadStreamResults.ToI32(m.result.value));
      assert FoldFields(S, acc, fs, k) == FoldFields(S, acc.(result := m.result), fs, k + 1);
      acc, k := acc.(result := m.result), k + 1;
    }
    Int32RoundTrip(m.nextEventNumber);
    Int32RoundTrip(m.lastEventNumber);
    assert FoldFields(S, acc, fs, k) == FoldFields(S, acc.(nextEventNumber := m.nextEventNumber), fs, k + 1);
    acc, k := acc.(nextEventNumber := m.nextEventNumber), k + 1;
    assert FoldFields(S, acc, fs, k) == FoldFields(S, acc.(lastEventNumber := m.lastEventNumber), fs, k + 1);
  }

  lemma ReadStreamEventsCompletedEndRead(m: ReadStreamEventsCompleted)
    requires m.error.Some? ==> IsUtf8(m.error.value)
    ensures FoldFields(ReadStreamEventsCompletedStep, m.(isEndOfStream := false, lastCommitPosition := 0, error := None),
                       ReadStreamEventsCompletedEnd(m), 0) == Ok(m)
  {
    var S := ReadStreamEventsCompletedStep;
    var fs := ReadStreamEventsCompletedEnd(m);
    var acc := m.(isEndOfStream := false, lastCommitPosition := 0, error := None);
    BoolRoundTrip(m.isEndOfStream);
    Int64RoundTrip(m.lastCommitPosition);
    assert FoldFields(S, acc, fs, 0) == FoldFields(S, acc.(isEndOfStream := m.isEndOfStream), fs, 1);
    acc := acc.(isEndOfStream := m.isEndOfStream);
    assert FoldFields(S, acc, fs, 1) == FoldFields(S, acc.(lastCommitPosition := m.lastCommitPosition), fs, 2);
    acc := acc.(lastCommitPosition := m.lastCommitPosition);
    if m.error.Some? {
      assert FoldFields(S, acc, fs, 2) == FoldFields(S, m, fs, 3);
    }
  }

  lemma ReadStreamEventsCompletedTailRead(m: ReadStreamEventsCompleted, start: ReadStreamEventsCompleted)
    requires m.error.Some? ==> IsUtf8(m.error.value)
    requires start == ReadStreamEventsCompletedDefault.(events := m.events)
    ensures FoldFields(ReadStreamEventsCompletedStep, start, ReadStreamEventsCompletedTail(m), 0) == Ok(m)
  {
    var mid := m.(isEndOfStream := false, lastCommitPosition := 0, error := None);
    ReadStreamEventsCompletedStatusRead(m, start);
    ReadStreamEventsCompletedEndRead(m);
    FoldSnoc(ReadStreamEventsCompletedStep, start, ReadStreamEventsCompletedStatus(m),
             ReadStreamEventsCompletedEnd(m), mid, m);
  }

  lemma ReadStreamEventsCompletedFold(m: ReadStreamEventsCompleted)
    requires ReadStreamEventsCompletedValid(m)
    ensures FoldFields(ReadStreamEventsCompletedStep, ReadStreamEventsCompletedDefault,
                       ReadStreamEventsCompletedFields(m), 0) == Ok(m)
  {
    var start := ReadStreamEventsCompletedDefault;
    var mid := start.(events := m.events);
    ReadStreamEventsCompletedAppendsEvents(start, m.events);
    assert start.(events := start.events + m.events) == mid;
    ReadStreamEventsCompletedTailRead(m, mid);
    FoldSnoc(ReadStreamEventsCompletedStep, start, IndexedEventsFields(m.events),
             ReadStreamEventsCompletedTail(m), mid, m);
  }

  /** The events come back in the order they were written, and every other field as written. */
  lemma ReadStreamEventsCompletedRoundTrip(m: ReadStreamEventsCompleted)
    requires ReadStreamEventsCompletedValid(m)
    ensures DecodeReadStreamEventsCompleted(EncodeReadStreamEventsCompleted(m)) == Ok(m)
  {
    ReadMessage(ReadStreamEventsCompletedStep, ReadStreamEventsCompletedDefault, ReadStreamEventsCompletedFields(m));
    ReadStreamEventsCompletedFold(m);
  }

  // ---- ReadAllEvents ----

  datatype ReadAllEvents = ReadAllEvents(
    commitPosition: I64,
    preparePosition: I64,
    maxCount: I32,
    resolveLinkTos: bool,
    requireMaster: bool)

  const ReadAllEventsDefault: ReadAllEvents := ReadAllEvents(0, 0, 0, false, false)

  function ReadAllEventsStep(m: ReadAllEvents, f: Field): Result<ReadAllEvents, Errors.ErrorKind> {
    match f
    case Field(1, Varint(n)) => Ok(m.(commitPosition := ToInt64(n)))
    case Field(2, Varint(n)) => Ok(m.(preparePosition := ToInt64(n)))
    case Field(3, Varint(n)) => Ok(m.(maxCount := ToInt32(n)))
    case Field(4, Varint(n)) => Ok(m.(resolveLinkTos := ToBool(n)))
    case Field(5, Varint(n)) => Ok(m.(requireMaster := ToBool(n)))
    case _ => Ok(m)
  }

  function ReadAllEventsHead(m: ReadAllEvents): seq<Field> {
    [Int64Field(1, m.commitPosition), Int64Field(2, m.preparePosition), Int32Field(3, m.maxCount)]
  }

  function ReadAllEventsTail(m: ReadAllEvents): seq<Field> {
    [BoolField(4, m.resolveLinkTos), BoolField(5, m.requireMaster)]
  }

  function ReadAllEventsFields(m: ReadAllEvents): seq<Field> {
    ReadAllEventsHead(m) + ReadAllEventsTail(m)
  }

  function DecodeReadAllEvents(bytes: seq<Byte>): Result<ReadAllEvents, Errors.ErrorKind> {
    ReadFields(ReadAllEventsStep, ReadAllEventsDefault, bytes)
  }

  function EncodeReadAllEvents(m: ReadAllEvents): seq<Byte> {
    Serialize(ReadAllEventsFields(m))
  }

  lemma ReadAllEventsHeadRead(m: ReadAllEvents)
    ensures FoldFields(ReadAllEventsStep, ReadAllEventsDefault, ReadAllEventsHead(m), 0)
            == Ok(m.(resolveLinkTos := false, requireMaster := false))
  {
    var S := ReadAllEventsStep;
    var fs := ReadAllEventsHead(m);
    Int64RoundTrip(m.commitPosition);
    Int64RoundTrip(m.preparePosition);
    Int32RoundTrip(m.maxCount);
    var m1 := ReadAllEventsDefault.(commitPosition := m.commitPosition);
    var m2 := m1.(preparePosition := m.preparePosition);
    assert FoldFields(S, ReadAllEventsDefault, fs, 0) == FoldFields(S, m1, fs, 1);
    assert FoldFields(S, m1, fs, 1) == FoldFields(S, m2, fs, 2);
    assert FoldFields(S, m2, fs, 2) == FoldFields(S, m2.(maxCount := m.maxCount), fs, 3);
  }

  lemma ReadAllEventsTailRead(m: ReadAllEvents)
    ensures FoldFields(ReadAllEventsStep, m.(resolveLinkTos := false, requireMaster := false),
                       ReadAllEventsTail(m), 0) == Ok(m)
  {
    var S := ReadAllEventsStep;
    var fs := ReadAllEventsTail(m);
    BoolRoundTrip(m.resolveLinkTos);
    BoolRoundTrip(m.requireMaster);
    var m0 := m.(resolveLinkTos := false, requireMaster := false);
    var m1 := m0.(resolveLinkTos := m.resolveLinkTos);
    assert FoldFields(S, m0, fs, 0) == FoldFields(S, m1, fs, 1);
    assert FoldFields(S, m1, fs, 1) == FoldFields(S, m, fs, 2);
  }

  /** `ReadAllEvents` has no string field, so every value reads back as written. */
  lemma ReadAllEventsRoundTrip(m: ReadAllEvents)
    ensures DecodeReadAllEvents(EncodeReadAllEvents(m)) == Ok(m)
  {
    var mid := m.(resolveLinkTos := false, requireMaster := false);
    ReadMessage(ReadAllEventsStep, ReadAllEventsDefault, ReadAllEventsFields(m));
    ReadAllEventsHeadRead(m);
    ReadAllEventsTailRead(m);
    FoldSnoc(ReadAllEventsStep, ReadAllEventsDefault, ReadAllEventsHead(m), ReadAllEventsTail(m), mid, m);
  }

  // ---- ReadAllEventsCompleted ----

  datatype ReadAllEventsCompleted = ReadAllEventsCompleted(
    commitPosition: I64,
    preparePosition: I64,
    events: seq<ResolvedEvent>,
    nextCommitPosition: I64,
    nextPreparePosition: I64,
    result: ReadAllResults.ReadAllResult,
    error: Option<seq<Byte>>)

  /** `from_reader` starts from the default with `result` set to `Success`. */
  const ReadAllEventsCompletedDefault: ReadAllEventsCompleted :=
    ReadAllEventsCompleted(0, 0, [], 0, 0, ReadAllResults.Success, None)

  predicate ReadAllEventsCompletedValid(m: ReadAllEventsCompleted) {
    (forall i :: 0 <= i < |m.events| ==> ResolvedEventValid(m.events[i]))
    && (m.error.Some? ==> IsUtf8(m.error.value))
  }

  /** Field 3 is repeated; field 6, the result, is a plain enum, not an `Option`. */
  function ReadAllEventsCompletedStep(m: ReadAllEventsCompleted, f: Field)
    : Result<ReadAllEventsCompleted, Errors.ErrorKind>
  {
    match f
    case Field(1, Varint(n)) => Ok(m.(commitPosition := ToInt64(n)))
    case Field(2, Varint(n)) => Ok(m.(preparePosition := ToInt64(n)))
    case Field(3, LengthDelimited(b)) => var e :- DecodeResolvedEvent(b); Ok(m.(events := m.events + [e]))
    case Field(4, Varint(n)) => Ok(m.(nextCommitPosition := ToInt64(n)))
    case Field(5, Varint(n)) => Ok(m.(nextPreparePosition := ToInt64(n)))
    case Field(6, Varint(n)) => Ok(m.(result := ReadAllResults.FromI32(ToInt32(n))))
    case Field(7, LengthDelimited(b)) => var s :- ToString(b); Ok(m.(error := Some(s)))
    case _ => Ok(m)
  }

  /** `for s in &self.events`: one field 3 per event, in vector order. */
  function ResolvedEventsFields(events: seq<ResolvedEvent>): (r: seq<Field>)
    ensures |r| == |events|
  {
    seq(|events|, i requires 0 <= i < |events| => MessageField(3, ResolvedEventFields(events[i])))
  }

  function ReadAllEventsCompletedHead(m: ReadAllEventsCompleted): seq<Field> {
    [Int64Field(1, m.commitPosition), Int64Field(2, m.preparePosition)]
  }

  /** The result is written only when it is not `Success`. */
  function ReadAllEventsCompletedTail(m: ReadAllEventsCompleted): seq<Field> {
    [Int64Field(4, m.nextCommitPosition), Int64Field(5, m.nextPreparePosition)]
    + (if m.result != ReadAllResults.Success then [Int32Field(6, ReadAllResults.ToI32(m.result))] else [])
    + Present(m.error, s => BytesField(7, s))
  }

  function ReadAllEventsCompletedFields(m: ReadAllEventsCompleted): seq<Field> {
    ReadAllEventsCompletedHead(m) + ResolvedEventsFields(m.events) + ReadAllEventsCompletedTail(m)
  }

  function DecodeReadAllEventsCompleted(bytes: seq<Byte>): Result<ReadAllEventsCompleted, Errors.ErrorKind> {
    ReadFields(ReadAllEventsCompletedStep, ReadAllEventsCompletedDefault, bytes)
  }

  function EncodeReadAllEventsCompleted(m: ReadAllEventsCompleted): seq<Byte> {
    Serialize(ReadAllEventsCompletedFields(m))
  }

  /** A `Success` result leaves no field 6 on the wire; any other result writes one. */
  lemma ReadAllEventsCompletedOmitsSuccess(m: ReadAllEventsCompleted)
    ensures m.result == ReadAllResults.Success <==>
            forall i :: 0 <= i < |ReadAllEventsCompletedFields(m)| ==> ReadAllEventsCompletedFields(m)[i].number != 6
  {
    var fs := ReadAllEventsCompletedFields(m);
    var n := |ReadAllEventsCompletedHead(m)| + |m.events|;
    if m.result != ReadAllResults.Success {
      assert fs[n + 2].number == 6;
    } else {
      forall i | 0 <= i < |fs| ensures fs[i].number != 6 {
        if i >= n {
          assert fs[i] == ReadAllEventsCompletedTail(m)[i - n];
        }
      }
    }
  }

  lemma ReadAllEventsCompletedReadsEvent(m: ReadAllEventsCompleted, e: ResolvedEvent)
    requires ResolvedEventValid(e)
    ensures ReadAllEventsCompletedStep(m, MessageField(3, ResolvedEventFields(e))) == Ok(m.(events := m.events + [e]))
  {
    ResolvedEventRoundTrip(e);
    assert DecodeResolvedEvent(Serialize(ResolvedEventFields(e))) == Ok(e);
  }

  /** One field of the repeated list pushes its event. */
  lemma ReadAllEventsCompletedPushesEvent(m: ReadAllEventsCompleted, events: seq<ResolvedEvent>, j: nat)
    requires j < |events| && ResolvedEventValid(events[j])
    ensures ReadAllEventsCompletedStep(m, ResolvedEventsFields(events)[j]) == Ok(m.(events := m.events + [events[j]]))
  {
    ReadAllEventsCompletedReadsEvent(m, events[j]);
    assert ResolvedEventsFields(events)[j] == MessageField(3, ResolvedEventFields(events[j]));
  }

  function PushResolvedEvent(m: ReadAllEventsCompleted, e: ResolvedEvent): ReadAllEventsCompleted {
    m.(events := m.events + [e])
  }

  lemma {:induction false} PushResolvedEventAll(m: ReadAllEventsCompleted, events: seq<ResolvedEvent>)
    ensures PushAll(PushResolvedEvent, m, events) == m.(events := m.events + events)
    decreases |events|
  {
    if events != [] {
      PushResolvedEventAll(PushResolvedEvent(m, events[0]), events[1..]);
      assert m.events + [events[0]] + events[1..] == m.events + events;
    }
  }

  /** Repeated events are appended in the order they arrive. */
  lemma ReadAllEventsCompletedAppendsEvents(m: ReadAllEventsCompleted, events: seq<ResolvedEvent>)
    requires forall j :: 0 <= j < |events| ==> ResolvedEventValid(events[j])
    ensures FoldFields(ReadAllEventsCompletedStep, m, ResolvedEventsFields(events), 0) == Ok(m.(events := m.events + events))
  {
    var fs := ResolvedEventsFields(events);
    forall x, j | 0 <= j < |fs| ensures ReadAllEventsCompletedStep(x, fs[j]) == Ok(PushResolvedEvent(x, events[j])) {
      ReadAllEventsCompletedPushesEvent(x, events, j);
    }
    FoldRepeated(ReadAllEventsCompletedStep, PushResolvedEvent, m, fs, events, 0);
    assert events[0..] == events;
    PushResolvedEventAll(m, events);
  }

  lemma ReadAllEventsCompletedHeadRead(m: ReadAllEventsCompleted)
    ensures FoldFields(ReadAllEventsCompletedStep, ReadAllEventsCompletedDefault, ReadAllEventsCompletedHead(m), 0)
            == Ok(ReadAllEventsCompletedDefault.(commitPosition := m.commitPosition, preparePosition := m.preparePosition))
  {
    var S := ReadAllEventsCompletedStep;
    var fs := ReadAllEventsCompletedHead(m);
    Int64RoundTrip(m.commitPosition);
    Int64RoundTrip(m.preparePosition);
    var m1 := ReadAllEventsCompletedDefault.(commitPosition := m.commitPosition);
    assert FoldFields(S, ReadAllEventsCompletedDefault, fs, 0) == FoldFields(S, m1, fs, 1);
    assert FoldFields(S, m1, fs, 1) == FoldFields(S, m1.(preparePosition := m.preparePosition), fs, 2);
  }

  /**
   * The tail reads back from a message whose result is still the preset
   * `Success`: an omitted result therefore reads back as `Success`.
   */
  lemma ReadAllEventsCompletedTailRead(m: ReadAllEventsCompleted, start: ReadAllEventsCompleted)
    requires m.error.Some? ==> IsUtf8(m.error.value)
    requires start == ReadAllEventsCompletedDefault.(commitPosition := m.commitPosition,
                                                     preparePosition := m.preparePosition, events := m.events)
    ensures FoldFields(ReadAllEventsCompletedStep, start, ReadAllEventsCompletedTail(m), 0) == Ok(m)
  {
    var S := ReadAllEventsCompletedStep;
    var fs := ReadAllEventsCompletedTail(m);
    Int64RoundTrip(m.nextCommitPosition);
    Int64RoundTrip(m.nextPreparePosition);
    var acc := start.(nextCommitPosition := m.nextCommitPosition);
    assert FoldFields(S, start, fs, 0) == FoldFields(S, acc, fs, 1);
    assert FoldFields(S, acc, fs, 1) == FoldFields(S, acc.(nextPreparePosition := m.nextPreparePosition), fs, 2);
    acc := acc.(nextPreparePosition := m.nextPreparePosition);
    var k := 2;
    if m.result != ReadAllResults.Success {
      ReadAllResults.RoundTrip(m.result);
      Int32RoundTrip(ReadAllResults.ToI32(m.result));
      assert FoldFields(S, acc, fs, k) == FoldFields(S, acc.(result := m.result), fs, k + 1);
      k := k + 1;
    }
    acc := acc.(result := m.result);
    if m.error.Some? {
      assert FoldFields(S, acc, fs, k) == FoldFields(S, acc.(error := m.error), fs, k + 1);
      acc, k := acc.(error := m.error), k + 1;
    }
    assert acc == m && k == |fs|;
  }

  lemma ReadAllEventsCompletedBodyRead(m: ReadAllEventsCompleted)
    requires ReadAllEventsCompletedValid(m)
    ensures FoldFields(ReadAllEventsCompletedStep, ReadAllEventsCompletedDefault,
                       ReadAllEventsCompletedHead(m) + ResolvedEventsFields(m.events), 0)
            == Ok(ReadAllEventsCompletedDefault.(commitPosition := m.commitPosition,
                                                 preparePosition := m.preparePosition, events := m.events))
  {
    var m2 := ReadAllEventsCompletedDefault.(commitPosition := m.commitPosition, preparePosition := m.preparePosition);
    var m3 := m2.(events := m.events);
    ReadAllEventsCompletedHeadRead(m);
    ReadAllEventsCompletedAppendsEvents(m2, m.events);
    assert m2.(events := m2.events + m.events) == m3;
    FoldSnoc(ReadAllEventsCompletedStep, ReadAllEventsCompletedDefault, ReadAllEventsCompletedHead(m),
             ResolvedEventsFields(m.events), m2, m3);
  }

  lemma ReadAllEventsCompletedFold(m: ReadAllEventsCompleted)
    requires ReadAllEventsCompletedValid(m)
    ensures FoldFields(ReadAllEventsCompletedStep, ReadAllEventsCompletedDefault,
                       ReadAllEventsCompletedFields(m), 0) == Ok(m)
  {
    var mid := ReadAllEventsCompletedDefault.(commitPosition := m.commitPosition,
                                              preparePosition := m.preparePosition, events := m.events);
    ReadAllEventsCompletedBodyRead(m);
    ReadAllEventsCompletedTailRead(m, mid);
    FoldSnoc(ReadAllEventsCompletedStep, ReadAllEventsCompletedDefault,
             ReadAllEventsCompletedHead(m) + ResolvedEventsFields(m.events), ReadAllEventsCompletedTail(m), mid, m);
  }

  /** Every result, `Success` included although it is not written, reads back as written. */
  lemma ReadAllEventsCompletedRoundTrip(m: ReadAllEventsCompleted)
    requires ReadAllEventsCompletedValid(m)
    ensures DecodeReadAllEventsCompleted(EncodeReadAllEventsCompleted(m)) == Ok(m)
  {
    ReadMessage(ReadAllEventsCompletedStep, ReadAllEventsCompletedDefault, ReadAllEventsCompletedFields(m));
    ReadAllEventsCompletedFold(m);
  }

  // ---- NotHandled ----

  datatype NotHandled = NotHandled(
    reason: Option<NotHandledReasons.NotHandledReason>,
    additionalInfo: Option<seq<Byte>>)

  const NotHandledDefault: NotHandled := NotHandled(None, None)

  /** `additional_info` is read with `read_bytes`: no UTF-8 check. */
  function NotHandledStep(m: NotHandled, f: Field): Result<NotHandled, Errors.ErrorKind> {
    match f
    case Field(1, Varint(n)) => Ok(m.(reason := Some(NotHandledReasons.FromI32(ToInt32(n)))))
    case Field(2, LengthDelimited(b)) => Ok(m.(additionalInfo := Some(b)))
    case _ => Ok(m)
  }

  function NotHandledFields(m: NotHandled): seq<Field> {
    Present(m.reason, r => Int32Field(1, NotHandledReasons.ToI32(r)))
    + Present(m.additionalInfo, b => BytesField(2, b))
  }

  function DecodeNotHandled(bytes: seq<Byte>): Result<NotHandled, Errors.ErrorKind> {
    ReadFields(NotHandledStep, NotHandledDefault, bytes)
  }

  function EncodeNotHandled(m: NotHandled): seq<Byte> {
    Serialize(NotHandledFields(m))
  }

  lemma NotHandledFold(m: NotHandled)
    ensures FoldFields(NotHandledStep, NotHandledDefault, NotHandledFields(m), 0) == Ok(m)
  {
    var S := NotHandledStep;
    var fs := NotHandledFields(m);
    var acc, k := NotHandledDefault, 0;
    if m.reason.Some? {
      NotHandledReasons.RoundTrip(m.reason.value);
      Int32RoundTrip(NotHandledReasons.ToI32(m.reason.value));
      assert FoldFields(S, acc, fs, k) == FoldFields(S, acc.(reason := m.reason), fs, k + 1);
      acc, k := acc.(reason := m.reason), k + 1;
    }
    if m.additionalInfo.Some? {
      assert FoldFields(S, acc, fs, k) == FoldFields(S, acc.(additionalInfo := m.additionalInfo), fs, k + 1);
      acc, k := acc.(additionalInfo := m.additionalInfo), k + 1;
    }
    assert acc == m && k == |fs|;
  }

  /** Any `NotHandled` reads back as written: the extra information is opaque bytes. */
  lemma NotHandledRoundTrip(m: NotHandled)
    ensures DecodeNotHandled(EncodeNotHandled(m)) == Ok(m)
  {
    ReadMessage(NotHandledStep, NotHandledDefault, NotHandledFields(m));
    NotHandledFold(m);
  }
}
