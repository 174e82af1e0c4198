/**
 * The event messages nested inside requests and completions
 * (src/client_messages.rs): `NewEvent`, `EventRecord`,
 * `ResolvedIndexedEvent` and `ResolvedEvent`. For each, `...Step` is the
 * body of its `from_reader` loop (the match on the tag), `...Fields` the
 * fields its `write_message` writes, in order, and the round-trip lemma
 * shows that reading what was written gives the message back.
 */
module EventRecords {
  import opened Ints
  import opened Wrappers
  import opened Errors
  import opened Utf8
  import opened Protobuf

  // ---- NewEvent ----

  datatype NewEvent = NewEvent(
    eventId: seq<Byte>,
    eventType: seq<Byte>,
    dataContentType: I32,
    metadataContentType: I32,
    data: seq<Byte>,
    metadata: Option<seq<Byte>>)

  const NewEventDefault: NewEvent := NewEvent([], [], 0, 0, [], None)

  predicate NewEventValid(e: NewEvent) {
    IsUtf8(e.eventType)
  }

  function NewEventStep(m: NewEvent, f: Field): Result<NewEvent, ErrorKind> {
    match f
    case Field(1, LengthDelimited(b)) => Ok(m.(eventId := b))
    case Field(2, LengthDelimited(b)) => var s :- ToString(b); Ok(m.(eventType := s))
    case Field(3, Varint(n)) => Ok(m.(dataContentType := ToInt32(n)))
    case Field(4, Varint(n)) => Ok(m.(metadataContentType := ToInt32(n)))
    case Field(5, LengthDelimited(b)) => Ok(m.(data := b))
    case Field(6, LengthDelimited(b)) => Ok(m.(metadata := Some(b)))
    case _ => Ok(m)
  }

  /** The five fields `write_message` always writes. */
  function NewEventRequired(e: NewEvent): seq<Field> {
    [ BytesField(1, e.eventId),
      BytesField(2, e.eventType),
      Int32Field(3, e.dataContentType),
      Int32Field(4, e.metadataContentType),
      BytesField(5, e.data) ]
  }

  function NewEventFields(e: NewEvent): seq<Field> {
    NewEventRequired(e) + Present(e.metadata, b => BytesField(6, b))
  }

  function DecodeNewEvent(bytes: seq<Byte>): Result<NewEvent, ErrorKind> {
    ReadFields(NewEventStep, NewEventDefault, bytes)
  }

  function EncodeNewEvent(e: NewEvent): seq<Byte> {
    Serialize(NewEventFields(e))
  }

  lemma NewEventRequiredRead(e: NewEvent)
    requires NewEventValid(e)
    ensures FoldFields(NewEventStep, NewEventDefault, NewEventRequired(e), 0)
            == Ok(e.(metadata := None))
  {
    var fs := NewEventRequired(e);
    var S := NewEventStep;
    Int32RoundTrip(e.dataContentType);
    Int32RoundTrip(e.metadataContentType);
    var m1 := NewEventDefault.(eventId := e.eventId);
    var m2 := m1.(eventType := e.eventType);
    var m3 := m2.(dataContentType := e.dataContentType);
    var m4 := m3.(metadataContentType := e.metadataContentType);
    assert FoldFields(S, NewEventDefault, fs, 0) == FoldFields(S, m1, fs, 1);
    assert FoldFields(S, m1, fs, 1) == FoldFields(S, m2, fs, 2);
    assert FoldFields(S, m2, fs, 2) == FoldFields(S, m3, fs, 3);
    assert FoldFields(S, m3, fs, 3) == FoldFields(S, m4, fs, 4);
    assert FoldFields(S, m4, fs, 4) == FoldFields(S, e.(metadata := None), fs, 5);
  }

  lemma NewEventFold(e: NewEvent)
    requires NewEventValid(e)
    ensures FoldFields(NewEventStep, NewEventDefault, NewEventFields(e), 0) == Ok(e)
  {
    var S := NewEventStep;
    var optional := Present(e.metadata, b => BytesField(6, b));
    FoldAppend(S, NewEventDefault, NewEventRequired(e), optional, 0);
    NewEventRequiredRead(e);
    if e.metadata.Some? {
      assert FoldFields(S, e.(metadata := None), optional, 0) == FoldFields(S, e, optional, 1);
    }
  }

  lemma NewEventRoundTrip(e: NewEvent)
    requires NewEventValid(e)
    ensures DecodeNewEvent(EncodeNewEvent(e)) == Ok(e)
  {
    ReadMessage(NewEventStep, NewEventDefault, NewEventFields(e));
    NewEventFold(e);
  }

  // ---- EventRecord ----

  datatype EventRecord = EventRecord(
    eventStreamId: seq<Byte>,
    eventNumber: I32,
    eventId: seq<Byte>,
    eventType: seq<Byte>,
    dataContentType: I32,
    metadataContentType: I32,
    data: seq<Byte>,
    metadata: Option<seq<Byte>>,
    created: Option<I64>,
    createdEpoch: Option<I64>)

  const EventRecordDefault: EventRecord := EventRecord([], 0, [], [], 0, 0, [], None, None, None)

  predicate EventRecordValid(e: EventRecord) {
    IsUtf8(e.eventStreamId) && IsUtf8(e.eventType)
  }

  function EventRecordStep(m: EventRecord, f: Field): Result<EventRecord, ErrorKind> {
    match f
    case Field(1, LengthDelimited(b)) => var s :- ToString(b); Ok(m.(eventStreamId := s))
    case Field(2, Varint(n)) => Ok(m.(eventNumber := ToInt32(n)))
    case Field(3, LengthDelimited(b)) => Ok(m.(eventId := b))
    case Field(4, LengthDelimited(b)) => var s :- ToString(b); Ok(m.(eventType := s))
    case Field(5, Varint(n)) => Ok(m.(dataContentType := ToInt32(n)))
    case Field(6, Varint(n)) => Ok(m.(metadataContentType := ToInt32(n)))
    case Field(7, LengthDelimited(b)) => Ok(m.(data := b))
    case Field(8, LengthDelimited(b)) => Ok(m.(metadata := Some(b)))
    case Field(9, Varint(n)) => Ok(m.(created := Some(ToInt64(n))))
    case Field(10, Varint(n)) => Ok(m.(createdEpoch := Some(ToInt64(n))))
    case _ => Ok(m)
  }

  function EventRecordFields(e: EventRecord): seq<Field> {
    EventRecordRequired(e) + EventRecordOptional(e)
  }

  function DecodeEventRecord(bytes: seq<Byte>): Result<EventRecord, ErrorKind> {
    ReadFields(EventRecordStep, EventRecordDefault, bytes)
  }

  function EncodeEventRecord(e: EventRecord): seq<Byte> {
    Serialize(EventRecordFields(e))
  }

  /** The seven fields `write_message` always writes. */
  function EventRecordRequired(e: EventRecord): seq<Field> {
    [ BytesField(1, e.eventStreamId),
      Int32Field(2, e.eventNumber),
      BytesField(3, e.eventId),
      BytesField(4, e.eventType),
      Int32Field(5, e.dataContentType),
      Int32Field(6, e.metadataContentType),
      BytesField(7, e.data) ]
  }

  /** The fields written only when present. */
  function EventRecordOptional(e: EventRecord): seq<Field> {
    Present(e.metadata, b => BytesField(8, b))
    + Present(e.created, v => Int64Field(9, v))
    + Present(e.createdEpoch, v => Int64Field(10, v))
  }

  lemma EventRecordRequiredRead(e: EventRecord)
    requires EventRecordValid(e)
    ensures FoldFields(EventRecordStep, EventRecordDefault, EventRecordRequired(e), 0)
            == Ok(EventRecordDefault.(eventStreamId := e.eventStreamId, eventNumber := e.eventNumber,
                    eventId := e.eventId, eventType := e.eventType, dataContentType := e.dataContentType,
                    metadataContentType := e.metadataContentType, data := e.data))
  {
    var fs := EventRecordRequired(e);
    var S := EventRecordStep;
    Int32RoundTrip(e.eventNumber);
    Int32RoundTrip(e.dataContentType);
    Int32RoundTrip(e.metadataContentType);
    var m1 := EventRecordDefault.(eventStreamId := e.eventStreamId);
    var m2 := m1.(eventNumber := e.eventNumber);
    var m3 := m2.(eventId := e.eventId);
    var m4 := m3.(eventType := e.eventType);
    var m5 := m4.(dataContentType := e.dataContentType);
    var m6 := m5.(metadataContentType := e.metadataContentType);
    var m7 := m6.(data := e.data);
    assert FoldFields(S, EventRecordDefault, fs, 0) == FoldFields(S, m1, fs, 1);
    assert FoldFields(S, m1, fs, 1) == FoldFields(S, m2, fs, 2);
    assert FoldFields(S, m2, fs, 2) == FoldFields(S, m3, fs, 3);
    assert FoldFields(S, m3, fs, 3) == FoldFields(S, m4, fs, 4);
    assert FoldFields(S, m4, fs, 4) == FoldFields(S, m5, fs, 5);
    assert FoldFields(S, m5, fs, 5) == FoldFields(S, m6, fs, 6);
    assert FoldFields(S, m6, fs, 6) == FoldFields(S, m7, fs, 7);
  }

  lemma EventRecordOptionalRead(e: EventRecord, m: EventRecord)
    requires m == e.(metadata := None, created := None, createdEpoch := None)
    ensures FoldFields(EventRecordStep, m, EventRecordOptional(e), 0) == Ok(e)
  {
    var fs := EventRecordOptional(e);
    var S := EventRecordStep;
    var acc, k := m, 0;
    if e.metadata.Some? {
      assert FoldFields(S, acc, fs, k) == FoldFields(S, acc.(metadata := e.metadata), fs, k + 1);
      acc, k := acc.(metadata := e.metadata), k + 1;
    }
    if e.created.Some? {
      Int64RoundTrip(e.created.value);
      assert FoldFields(S, acc, fs, k) == FoldFields(S, acc.(created := e.created), fs, k + 1);
      acc, k := acc.(created := e.created), k + 1;
    }
    if e.createdEpoch.Some? {
      Int64RoundTrip(e.createdEpoch.value);
      assert FoldFields(S, acc, fs, k) == FoldFields(S, acc.(createdEpoch := e.createdEpoch), fs, k + 1);
      acc, k := acc.(createdEpoch := e.createdEpoch), k + 1;
    }
    assert acc == e && k == |fs|;
  }

  lemma EventRecordRoundTrip(e: EventRecord)
    requires EventRecordValid(e)
    ensures DecodeEventRecord(EncodeEventRecord(e)) == Ok(e)
  {
    var fs := EventRecordFields(e);
    ReadMessage(EventRecordStep, EventRecordDefault, fs);
    FoldAppend(EventRecordStep, EventRecordDefault, EventRecordRequired(e), EventRecordOptional(e), 0);
    EventRecordRequiredRead(e);
    EventRecordOptionalRead(e, e.(metadata := None, created := None, createdEpoch := None));
  }

  // ---- ResolvedIndexedEvent ----

  datatype ResolvedIndexedEvent = ResolvedIndexedEvent(event: EventRecord, link: Option<EventRecord>)

  const ResolvedIndexedEventDefault: ResolvedIndexedEvent := ResolvedIndexedEvent(EventRecordDefault, None)

  predicate ResolvedIndexedEventValid(e: ResolvedIndexedEvent) {
    EventRecordValid(e.event) && (e.link.Some? ==> EventRecordValid(e.link.value))
  }

  /** `read_message` of an `EventRecord`: a nested message is read from its length-delimited bytes. */
  function ResolvedIndexedEventStep(m: ResolvedIndexedEvent, f: Field): Result<ResolvedIndexedEvent, ErrorKind> {
    match f
    case Field(1, LengthDelimited(b)) => var ev :- DecodeEventRecord(b); Ok(m.(event := ev))
    case Field(2, LengthDelimited(b)) => var ev :- DecodeEventRecord(b); Ok(m.(link := Some(ev)))
    case _ => Ok(m)
  }

  function ResolvedIndexedEventFields(e: ResolvedIndexedEvent): seq<Field> {
    [MessageField(1, EventRecordFields(e.event))]
    + Present(e.link, l => MessageField(2, EventRecordFields(l)))
  }

  function DecodeResolvedIndexedEvent(bytes: seq<Byte>): Result<ResolvedIndexedEvent, ErrorKind> {
    ReadFields(ResolvedIndexedEventStep, ResolvedIndexedEventDefault, bytes)
  }

  function EncodeResolvedIndexedEvent(e: ResolvedIndexedEvent): seq<Byte> {
    Serialize(ResolvedIndexedEventFields(e))
  }

  /** A nested record reads back as the record that was written. */
  lemma ResolvedIndexedEventReadsRecords(m: ResolvedIndexedEvent, ev: EventRecord)
    requires EventRecordValid(ev)
    ensures ResolvedIndexedEventStep(m, MessageField(1, EventRecordFields(ev))) == Ok(m.(event := ev))
    ensures ResolvedIndexedEventStep(m, MessageField(2, EventRecordFields(ev))) == Ok(m.(link := Some(ev)))
  {
    EventRecordRoundTrip(ev);
  }

  lemma ResolvedIndexedEventFold(e: ResolvedIndexedEvent)
    requires ResolvedIndexedEventValid(e)
    ensures FoldFields(ResolvedIndexedEventStep, ResolvedIndexedEventDefault, ResolvedIndexedEventFields(e), 0) == Ok(e)
  {
    var S := ResolvedIndexedEventStep;
    var head := [MessageField(1, EventRecordFields(e.event))];
    var link := Present(e.link, l => MessageField(2, EventRecordFields(l)));
    FoldAppend(S, ResolvedIndexedEventDefault, head, link, 0);
    ResolvedIndexedEventReadsRecords(ResolvedIndexedEventDefault, e.event);
    var m1 := ResolvedIndexedEventDefault.(event := e.event);
    assert FoldFields(S, ResolvedIndexedEventDefault, head, 0) == Ok(m1);
    if e.link.Some? {
      ResolvedIndexedEventReadsRecords(m1, e.link.value);
      assert FoldFields(S, m1, link, 0) == FoldFields(S, e, link, 1);
    }
  }

  lemma ResolvedIndexedEventRoundTrip(e: ResolvedIndexedEvent)
    requires ResolvedIndexedEventValid(e)
    ensures DecodeResolvedIndexedEvent(EncodeResolvedIndexedEvent(e)) == Ok(e)
  {
    ReadMessage(ResolvedIndexedEventStep, ResolvedIndexedEventDefault, ResolvedIndexedEventFields(e));
    ResolvedIndexedEventFold(e);
  }

  // ---- ResolvedEvent ----

  datatype ResolvedEvent = ResolvedEvent(
    event: EventRecord,
    link: Option<EventRecord>,
    commitPosition: I64,
    preparePosition: I64)

  const ResolvedEventDefault: ResolvedEvent := ResolvedEvent(EventRecordDefault, None, 0, 0)

  predicate ResolvedEventValid(e: ResolvedEvent) {
    EventRecordValid(e.event) && (e.link.Some? ==> EventRecordValid(e.link.value))
  }

  function ResolvedEventStep(m: ResolvedEvent, f: Field): Result<ResolvedEvent, ErrorKind> {
    match f
    case Field(1, LengthDelimited(b)) => var ev :- DecodeEventRecord(b); Ok(m.(event := ev))
    case Field(2, LengthDelimited(b)) => var ev :- DecodeEventRecord(b); Ok(m.(link := Some(ev)))
    case Field(3, Varint(n)) => Ok(m.(commitPosition := ToInt64(n)))
    case Field(4, Varint(n)) => Ok(m.(preparePosition := ToInt64(n)))
    case _ => Ok(m)
  }

  function ResolvedEventFields(e: ResolvedEvent): seq<Field> {
    [MessageField(1, EventRecordFields(e.event))]
    + Present(e.link, l => MessageField(2, EventRecordFields(l)))
    + [Int64Field(3, e.commitPosition), Int64Field(4, e.preparePosition)]
  }

  function DecodeResolvedEvent(bytes: seq<Byte>): Result<ResolvedEvent, ErrorKind> {
    ReadFields(ResolvedEventStep, ResolvedEventDefault, bytes)
  }

  function EncodeResolvedEvent(e: ResolvedEvent): seq<Byte> {
    Serialize(ResolvedEventFields(e))
  }

  lemma ResolvedEventPositionsRead(m: ResolvedEvent, commit: I64, prepare: I64)
    ensures FoldFields(ResolvedEventStep, m, [Int64Field(3, commit), Int64Field(4, prepare)], 0)
            == Ok(m.(commitPosition := commit, preparePosition := prepare))
  {
    var fs := [Int64Field(3, commit), Int64Field(4, prepare)];
    Int64RoundTrip(commit);
    Int64RoundTrip(prepare);
    assert FoldFields(ResolvedEventStep, m, fs, 0)
        == FoldFields(ResolvedEventStep, m.(commitPosition := commit), fs, 1);
  }

  lemma ResolvedEventReadsRecords(m: ResolvedEvent, ev: EventRecord)
    requires EventRecordValid(ev)
    ensures ResolvedEventStep(m, MessageField(1, EventRecordFields(ev))) == Ok(m.(event := ev))
    ensures ResolvedEventStep(m, MessageField(2, EventRecordFields(ev))) == Ok(m.(link := Some(ev)))
  {
    EventRecordRoundTrip(ev);
  }

  lemma ResolvedEventFold(e: ResolvedEvent)
    requires ResolvedEventValid(e)
    ensures FoldFields(ResolvedEventStep, ResolvedEventDefault, ResolvedEventFields(e), 0) == Ok(e)
  {
    var S := ResolvedEventStep;
    var head := [MessageField(1, EventRecordFields(e.event))];
    var link := Present(e.link, l => MessageField(2, EventRecordFields(l)));
    var positions := [Int64Field(3, e.commitPosition), Int64Field(4, e.preparePosition)];
    assert ResolvedEventFields(e) == (head + link) + positions;
    FoldAppend(S, ResolvedEventDefault, head + link, positions, 0);
    FoldAppend(S, ResolvedEventDefault, head, link, 0);
    ResolvedEventReadsRecords(ResolvedEventDefault, e.event);
    var m1 := ResolvedEventDefault.(event := e.event);
    assert FoldFields(S, ResolvedEventDefault, head, 0) == Ok(m1);
    var m2 := m1.(link := e.link);
    if e.link.Some? {
      ResolvedEventReadsRecords(m1, e.link.value);
      assert FoldFields(S, m1, link, 0) == FoldFields(S, m2, link, 1);
    }
    assert FoldFields(S, m1, link, 0) == Ok(m2);
    ResolvedEventPositionsRead(m2, e.commitPosition, e.preparePosition);
  }

  lemma ResolvedEventRoundTrip(e: ResolvedEvent)
    requires ResolvedEventValid(e)
    ensures DecodeResolvedEvent(EncodeResolvedEvent(e)) == Ok(e)
  {
    ReadMessage(ResolvedEventStep, ResolvedEventDefault, ResolvedEventFields(e));
    ResolvedEventFold(e);
  }
}
