/**
 * The append and delete messages (src/client_messages.rs): `WriteEvents`,
 * `WriteEventsCompleted`, `DeleteStream` and `DeleteStreamCompleted`. As in
 * the event records, `...Step` is the match in `from_reader`, `...Fields`
 * the fields `write_message` writes, and each message reads back as written.
 */
module WriteMessages {
  import opened Ints
  import opened Wrappers
  import Errors
  import opened Utf8
  import opened Protobuf
  import opened EventRecords
  import OperationResults

  // ---- WriteEvents ----

  datatype WriteEvents = WriteEvents(
    eventStreamId: seq<Byte>,
    expectedVersion: I32,
    events: seq<NewEvent>,
    requireMaster: bool)

  const WriteEventsDefault: WriteEvents := WriteEvents([], 0, [], false)

  predicate WriteEventsValid(m: WriteEvents) {
    IsUtf8(m.eventStreamId) && forall i :: 0 <= i < |m.events| ==> NewEventValid(m.events[i])
  }

  /** Field 3 is repeated: every occurrence is pushed onto `events`. */
  function WriteEventsStep(m: WriteEvents, f: Field): Result<WriteEvents, Errors.ErrorKind> {
    match f
    case Field(1, LengthDelimited(b)) => var s :- ToString(b); Ok(m.(eventStreamId := s))
    case Field(2, Varint(n)) => Ok(m.(expectedVersion := ToInt32(n)))
    case Field(3, LengthDelimited(b)) => var ev :- DecodeNewEvent(b); Ok(m.(events := m.events + [ev]))
    case Field(4, Varint(n)) => Ok(m.(requireMaster := ToBool(n)))
    case _ => Ok(m)
  }

  /** `for s in &self.events`: one field 3 per event, in vector order. */
  function NewEventsFields(events: seq<NewEvent>): (r: seq<Field>)
    ensures |r| == |events|
  {
    seq(|events|, i requires 0 <= i < |events| => MessageField(3, NewEventFields(events[i])))
  }

  function WriteEventsFields(m: WriteEvents): seq<Field> {
    [BytesField(1, m.eventStreamId), Int32Field(2, m.expectedVersion)]
    + NewEventsFields(m.events)
    + [BoolField(4, m.requireMaster)]
  }

  function DecodeWriteEvents(bytes: seq<Byte>): Result<WriteEvents, Errors.ErrorKind> {
    ReadFields(WriteEventsStep, WriteEventsDefault, bytes)
  }

  function EncodeWriteEvents(m: WriteEvents): seq<Byte> {
    Serialize(WriteEventsFields(m))
  }

  lemma WriteEventsReadsEvent(m: WriteEvents, ev: NewEvent)
    requires NewEventValid(ev)
    ensures WriteEventsStep(m, MessageField(3, NewEventFields(ev))) == Ok(m.(events := m.events + [ev]))
  {
    NewEventRoundTrip(ev);
  }

  /** One field of the repeated list pushes its event. */
  lemma WriteEventsPushesEvent(m: WriteEvents, events: seq<NewEvent>, j: nat)
    requires j < |events| && NewEventValid(events[j])
    ensures WriteEventsStep(m, NewEventsFields(events)[j]) == Ok(m.(events := m.events + [events[j]]))
  {
    WriteEventsReadsEvent(m, events[j]);
    assert NewEventsFields(events)[j] == MessageField(3, NewEventFields(events[j]));
  }

  function PushNewEvent(m: WriteEvents, e: NewEvent): WriteEvents {
    m.(events := m.events + [e])
  }

  lemma {:induction false} PushNewEventAll(m: WriteEvents, events: seq<NewEvent>)
    ensures PushAll(PushNewEvent, m, events) == m.(events := m.events + events)
    decreases |events|
  {
    if events != [] {
      PushNewEventAll(PushNewEvent(m, events[0]), events[1..]);
      assert m.events + [events[0]] + events[1..] == m.events + events;
    }
  }

  /** Repeated events are appended in the order they arrive. */
  lemma WriteEventsAppendsEvents(m: WriteEvents, events: seq<NewEvent>)
    requires forall j :: 0 <= j < |events| ==> NewEventValid(events[j])
    ensures FoldFields(WriteEventsStep, m, NewEventsFields(events), 0) == Ok(m.(events := m.events + events))
  {
    var fs := NewEventsFields(events);
    forall x, j | 0 <= j < |fs| ensures WriteEventsStep(x, fs[j]) == Ok(PushNewEvent(x, events[j])) {
      WriteEventsPushesEvent(x, events, j);
    }
    FoldRepeated(WriteEventsStep, PushNewEvent, m, fs, events, 0);
    assert events[0..] == events;
    PushNewEventAll(m, events);
  }

  lemma WriteEventsHeadRead(m: WriteEvents)
    requires IsUtf8(m.eventStreamId)
    ensures FoldFields(WriteEventsStep, WriteEventsDefault,
                       [BytesField(1, m.eventStreamId), Int32Field(2, m.expectedVersion)], 0)
            == Ok(WriteEventsDefault.(eventStreamId := m.eventStreamId, expectedVersion := m.expectedVersion))
  {
    var S := WriteEventsStep;
    var head := [BytesField(1, m.eventStreamId), Int32Field(2, m.expectedVersion)];
    Int32RoundTrip(m.expectedVersion);
    var m1 := WriteEventsDefault.(eventStreamId := m.eventStreamId);
    assert FoldFields(S, WriteEventsDefault, head, 0) == FoldFields(S, m1, head, 1);
    assert FoldFields(S, m1, head, 1) == FoldFields(S, m1.(expectedVersion := m.expectedVersion), head, 2);
  }

  lemma WriteEventsBodyRead(m: WriteEvents)
    requires WriteEventsValid(m)
    ensures FoldFields(WriteEventsStep, WriteEventsDefault,
                       [BytesField(1, m.eventStreamId), Int32Field(2, m.expectedVersion)] + NewEventsFields(m.events), 0)
            == Ok(m.(requireMaster := false))
  {
    var m2 := WriteEventsDefault.(eventStreamId := m.eventStreamId, expectedVersion := m.expectedVersion);
    WriteEventsHeadRead(m);
    WriteEventsAppendsEvents(m2, m.events);
    assert m2.(events := m2.events + m.events) == m.(requireMaster := false);
    FoldSnoc(WriteEventsStep, WriteEventsDefault, [BytesField(1, m.eventStreamId), Int32Field(2, m.expectedVersion)],
             NewEventsFields(m.events), m2, m.(requireMaster := false));
  }

  lemma WriteEventsFold(m: WriteEvents)
    requires WriteEventsValid(m)
    ensures FoldFields(WriteEventsStep, WriteEventsDefault, WriteEventsFields(m), 0) == Ok(m)
  {
    var body := [BytesField(1, m.eventStreamId), Int32Field(2, m.expectedVersion)] + NewEventsFields(m.events);
    var m3 := m.(requireMaster := false);
    WriteEventsBodyRead(m);
    BoolRoundTrip(m.requireMaster);
    FoldSingle(WriteEventsStep, m3, BoolField(4, m.requireMaster));
    FoldSnoc(WriteEventsStep, WriteEventsDefault, body, [BoolField(4, m.requireMaster)], m3, m);
  }

  /** `from_reader` reads back what `write_message` wrote, events in the same order. */
  lemma WriteEventsRoundTrip(m: WriteEvents)
    requires WriteEventsValid(m)
    ensures DecodeWriteEvents(EncodeWriteEvents(m)) == Ok(m)
  {
    ReadMessage(WriteEventsStep, WriteEventsDefault, WriteEventsFields(m));
    WriteEventsFold(m);
  }

  /** A scalar field sent twice keeps the value that came last. */
  lemma WriteEventsLastValueWins(m: WriteEvents, first: I32, second: I32, rest: seq<Byte>)
    ensures ReadFields(WriteEventsStep, m, FieldBytes(Int32Field(2, first)) + FieldBytes(Int32Field(2, second)) + rest)
            == ReadFields(WriteEventsStep, m.(expectedVersion := second), rest)
  {
    var f1 := Int32Field(2, first);
    var f2 := Int32Field(2, second);
    Int32RoundTrip(first);
    Int32RoundTrip(second);
    var s := FieldBytes(f1) + FieldBytes(f2) + rest;
    FieldRoundTrip(f1, FieldBytes(f2) + rest);
    assert s == FieldBytes(f1) + (FieldBytes(f2) + rest);
    assert s[|FieldBytes(f1)|..] == FieldBytes(f2) + rest;
    var mid := m.(expectedVersion := first);
    FieldRoundTrip(f2, rest);
    assert (FieldBytes(f2) + rest)[|FieldBytes(f2)|..] == rest;
    assert ReadFields(WriteEventsStep, mid, FieldBytes(f2) + rest)
        == ReadFields(WriteEventsStep, m.(expectedVersion := second), rest);
  }

  /**
   * A field whose tag the message does not declare is skipped: an unknown
   * number, or a declared number with another wire type.
   */
  lemma WriteEventsSkipsUnknown(m: WriteEvents, f: Field, rest: seq<Byte>)
    requires (f.number, WireType(f.value)) !in {(1, 2), (2, 0), (3, 2), (4, 0)}
    ensures ReadFields(WriteEventsStep, m, FieldBytes(f) + rest) == ReadFields(WriteEventsStep, m, rest)
  {
    SkipField(WriteEventsStep, m, f, rest);
  }

  // ---- WriteEventsCompleted ----

  datatype WriteEventsCompleted = WriteEventsCompleted(
    result: Option<OperationResults.OperationResult>,
    message: Option<seq<Byte>>,
    firstEventNumber: I32,
    lastEventNumber: I32,
    preparePosition: Option<I64>,
    commitPosition: Option<I64>)

  const WriteEventsCompletedDefault: WriteEventsCompleted := WriteEventsCompleted(None, None, 0, 0, None, None)

  predicate WriteEventsCompletedValid(m: WriteEventsCompleted) {
    m.message.Some? ==> IsUtf8(m.message.value)
  }

  /** `read_enum` reads an `int32` and converts it with `From<i32>`. */
  function WriteEventsCompletedStep(m: WriteEventsCompleted, f: Field): Result<WriteEventsCompleted, Errors.ErrorKind> {
    match f
    case Field(1, Varint(n)) => Ok(m.(result := Some(OperationResults.FromI32(ToInt32(n)))))
    case Field(2, LengthDelimited(b)) => var s :- ToString(b); Ok(m.(message := Some(s)))
    case Field(3, Varint(n)) => Ok(m.(firstEventNumber := ToInt32(n)))
    case Field(4, Varint(n)) => Ok(m.(lastEventNumber := ToInt32(n)))
    case Field(5, Varint(n)) => Ok(m.(preparePosition := Some(ToInt64(n))))
    case Field(6, Varint(n)) => Ok(m.(commitPosition := Some(ToInt64(n))))
    case _ => Ok(m)
  }

  function WriteEventsCompletedHead(m: WriteEventsCompleted): seq<Field> {
    Present(m.result, r => Int32Field(1, OperationResults.ToI32(r)))
    + Present(m.message, s => BytesField(2, s))
  }

  function WriteEventsCompletedTail(m: WriteEventsCompleted): seq<Field> {
    [Int32Field(3, m.firstEventNumber), Int32Field(4, m.lastEventNumber)]
    + Present(m.preparePosition, v => Int64Field(5, v))
    + Present(m.commitPosition, v => Int64Field(6, v))
  }

  function WriteEventsCompletedFields(m: WriteEventsCompleted): seq<Field> {
    WriteEventsCompletedHead(m) + WriteEventsCompletedTail(m)
  }

  function DecodeWriteEventsCompleted(bytes: seq<Byte>): Result<WriteEventsCompleted, Errors.ErrorKind> {
    ReadFields(WriteEventsCompletedStep, WriteEventsCompletedDefault, bytes)
  }

  function EncodeWriteEventsCompleted(m: WriteEventsCompleted): seq<Byte> {
    Serialize(WriteEventsCompletedFields(m))
  }

  lemma WriteEventsCompletedHeadRead(m: WriteEventsCompleted)
    requires WriteEventsCompletedValid(m)
    ensures FoldFields(WriteEventsCompletedStep, WriteEventsCompletedDefault, WriteEventsCompletedHead(m), 0)
            == Ok(WriteEventsCompletedDefault.(result := m.result, message := m.message))
  {
    var S := WriteEventsCompletedStep;
    var fs := WriteEventsCompletedHead(m);
    var acc, k := WriteEventsCompletedDefault, 0;
    if m.result.Some? {
      OperationResults.RoundTrip(m.result.value);
      Int32RoundTrip(OperationResults.ToI32(m.result.value));
      assert FoldFields(S, acc, fs, k) == FoldFields(S, acc.(result := m.result), fs, k + 1);
      acc, k := acc.(result := m.result), k + 1;
    }
    if m.message.Some? {
      assert FoldFields(S, acc, fs, k) == FoldFields(S, acc.(message := m.message), fs, k + 1);
      acc, k := acc.(message := m.message), k + 1;
    }
    assert k == |fs|;
  }

  lemma WriteEventsCompletedTailRead(m: WriteEventsCompleted, start: WriteEventsCompleted)
    requires start == WriteEventsCompletedDefault.(result := m.result, message := m.message)
    ensures FoldFields(WriteEventsCompletedStep, start, WriteEventsCompletedTail(m), 0) == Ok(m)
  {
    var S := WriteEventsCompletedStep;
    var fs := WriteEventsCompletedTail(m);
    Int32RoundTrip(m.firstEventNumber);
    Int32RoundTrip(m.lastEventNumber);
    var acc := start.(firstEventNumber := m.firstEventNumber);
    assert FoldFields(S, start, fs, 0) == FoldFields(S, acc, fs, 1);
    assert FoldFields(S, acc, fs, 1) == FoldFields(S, acc.(lastEventNumber := m.lastEventNumber), fs, 2);
    acc := acc.(lastEventNumber := m.lastEventNumber);
    var k := 2;
    if m.preparePosition.Some? {
      Int64RoundTrip(m.preparePosition.value);
      assert FoldFields(S, acc, fs, k) == FoldFields(S, acc.(preparePosition := m.preparePosition), fs, k + 1);
      acc, k := acc.(preparePosition := m.preparePosition), k + 1;
    }
    if m.commitPosition.Some? {
      Int64RoundTrip(m.commitPosition.value);
      assert FoldFields(S, acc, fs, k) == FoldFields(S, acc.(commitPosition := m.commitPosition), fs, k + 1);
      acc, k := acc.(commitPosition := m.commitPosition), k + 1;
    }
    assert acc == m && k == |fs|;
  }

  /** Optional fields are written only when present and read back as exactly that. */
  lemma WriteEventsCompletedRoundTrip(m: WriteEventsCompleted)
    requires WriteEventsCompletedValid(m)
    ensures DecodeWriteEventsCompleted(EncodeWriteEventsCompleted(m)) == Ok(m)
  {
    var S := WriteEventsCompletedStep;
    ReadMessage(S, WriteEventsCompletedDefault, WriteEventsCompletedFields(m));
    var mid := WriteEventsCompletedDefault.(result := m.result, message := m.message);
    WriteEventsCompletedHeadRead(m);
    WriteEventsCompletedTailRead(m, mid);
    FoldSnoc(S, WriteEventsCompletedDefault, WriteEventsCompletedHead(m), WriteEventsCompletedTail(m), mid, m);
  }

  // ---- DeleteStream ----

  datatype DeleteStream = DeleteStream(
    eventStreamId: seq<Byte>,
    expectedVersion: I32,
    requireMaster: bool,
    hardDelete: Option<bool>)

  const DeleteStreamDefault: DeleteStream := DeleteStream([], 0, false, None)

  predicate DeleteStreamValid(m: DeleteStream) {
    IsUtf8(m.eventStreamId)
  }

  function DeleteStreamStep(m: DeleteStream, f: Field): Result<DeleteStream, Errors.ErrorKind> {
    match f
    case Field(1, LengthDelimited(b)) => var s :- ToString(b); Ok(m.(eventStreamId := s))
    case Field(2, Varint(n)) => Ok(m.(expectedVersion := ToInt32(n)))
    case Field(3, Varint(n)) => Ok(m.(requireMaster := ToBool(n)))
    case Field(4, Varint(n)) => Ok(m.(hardDelete := Some(ToBool(n))))
    case _ => Ok(m)
  }

  function DeleteStreamFields(m: DeleteStream): seq<Field> {
    [BytesField(1, m.eventStreamId), Int32Field(2, m.expectedVersion), BoolField(3, m.requireMaster)]
    + Present(m.hardDelete, b => BoolField(4, b))
  }

  function DecodeDeleteStream(bytes: seq<Byte>): Result<DeleteStream, Errors.ErrorKind> {
    ReadFields(DeleteStreamStep, DeleteStreamDefault, bytes)
  }

  function EncodeDeleteStream(m: DeleteStream): seq<Byte> {
    Serialize(DeleteStreamFields(m))
  }

  lemma DeleteStreamFold(m: DeleteStream)
    requires DeleteStreamValid(m)
    ensures FoldFields(DeleteStreamStep, DeleteStreamDefault, DeleteStreamFields(m), 0) == Ok(m)
  {
    var S := DeleteStreamStep;
    var fs := DeleteStreamFields(m);
    Int32RoundTrip(m.expectedVersion);
    BoolRoundTrip(m.requireMaster);
    var m1 := DeleteStreamDefault.(eventStreamId := m.eventStreamId);
    var m2 := m1.(expectedVersion := m.expectedVersion);
    var m3 := m2.(requireMaster := m.requireMaster);
    assert FoldFields(S, DeleteStreamDefault, fs, 0) == FoldFields(S, m1, fs, 1);
    assert FoldFields(S, m1, fs, 1) == FoldFields(S, m2, fs, 2);
    assert FoldFields(S, m2, fs, 2) == FoldFields(S, m3, fs, 3);
    if m.hardDelete.Some? {
      BoolRoundTrip(m.hardDelete.value);
      assert FoldFields(S, m3, fs, 3) == FoldFields(S, m, fs, 4);
    }
  }

  lemma DeleteStreamRoundTrip(m: DeleteStream)
    requires DeleteStreamValid(m)
    ensures DecodeDeleteStream(EncodeDeleteStream(m)) == Ok(m)
  {
    ReadMessage(DeleteStreamStep, DeleteStreamDefault, DeleteStreamFields(m));
    DeleteStreamFold(m);
  }

  // ---- DeleteStreamCompleted ----

  datatype DeleteStreamCompleted = DeleteStreamCompleted(
    result: Option<OperationResults.OperationResult>,
    message: Option<seq<Byte>>,
    preparePosition: Option<I64>,
    commitPosition: Option<I64>)

  const DeleteStreamCompletedDefault: DeleteStreamCompleted := DeleteStreamCompleted(None, None, None, None)

  predicate DeleteStreamCompletedValid(m: DeleteStreamCompleted) {
    m.message.Some? ==> IsUtf8(m.message.value)
  }

  function DeleteStreamCompletedStep(m: DeleteStreamCompleted, f: Field): Result<DeleteStreamCompleted, Errors.ErrorKind> {
    match f
    case Field(1, Varint(n)) => Ok(m.(result := Some(OperationResults.FromI32(ToInt32(n)))))
    case Field(2, LengthDelimited(b)) => var s :- ToString(b); Ok(m.(message := Some(s)))
    case Field(3, Varint(n)) => Ok(m.(preparePosition := Some(ToInt64(n))))
    case Field(4, Varint(n)) => Ok(m.(commitPosition := Some(ToInt64(n))))
    case _ => Ok(m)
  }

  function DeleteStreamCompletedHead(m: DeleteStreamCompleted): seq<Field> {
    Present(m.result, r => Int32Field(1, OperationResults.ToI32(r)))
    + Present(m.message, s => BytesField(2, s))
  }

  function DeleteStreamCompletedTail(m: DeleteStreamCompleted): seq<Field> {
    Present(m.preparePosition, v => Int64Field(3, v))
    + Present(m.commitPosition, v => Int64Field(4, v))
  }

  function DeleteStreamCompletedFields(m: DeleteStreamCompleted): seq<Field> {
    DeleteStreamCompletedHead(m) + DeleteStreamCompletedTail(m)
  }

  function DecodeDeleteStreamCompleted(bytes: seq<Byte>): Result<DeleteStreamCompleted, Errors.ErrorKind> {
    ReadFields(DeleteStreamCompletedStep, DeleteStreamCompletedDefault, bytes)
  }

  function EncodeDeleteStreamCompleted(m: DeleteStreamCompleted): seq<Byte> {
    Serialize(DeleteStreamCompletedFields(m))
  }

  lemma DeleteStreamCompletedHeadRead(m: DeleteStreamCompleted)
    requires DeleteStreamCompletedValid(m)
    ensures FoldFields(DeleteStreamCompletedStep, DeleteStreamCompletedDefault, DeleteStreamCompletedHead(m), 0)
            == Ok(DeleteStreamCompletedDefault.(result := m.result, message := m.message))
  {
    var S := DeleteStreamCompletedStep;
    var fs := DeleteStreamCompletedHead(m);
    var acc, k := DeleteStreamCompletedDefault, 0;
    if m.result.Some? {
      OperationResults.RoundTrip(m.result.value);
      Int32RoundTrip(OperationResults.ToI32(m.result.value));
      assert FoldFields(S, acc, fs, k) == FoldFields(S, acc.(result := m.result), fs, k + 1);
      acc, k := acc.(result := m.result), k + 1;
    }
    if m.message.Some? {
      assert FoldFields(S, acc, fs, k) == FoldFields(S, acc.(message := m.message), fs, k + 1);
      acc, k := acc.(message := m.message), k + 1;
    }
    assert k == |fs|;
  }

  lemma DeleteStreamCompletedTailRead(m: DeleteStreamCompleted, start: DeleteStreamCompleted)
    requires start == DeleteStreamCompletedDefault.(result := m.result, message := m.message)
    ensures FoldFields(DeleteStreamCompletedStep, start, DeleteStreamCompletedTail(m), 0) == Ok(m)
  {
    var S := DeleteStreamCompletedStep;
    var fs := DeleteStreamCompletedTail(m);
    var acc, k := start, 0;
    if m.preparePosition.Some? {
      Int64RoundTrip(m.preparePosition.value);
      assert FoldFields(S, acc, fs, k) == FoldFields(S, acc.(preparePosition := m.preparePosition), fs, k + 1);
      acc, k := acc.(preparePosition := m.preparePosition), k + 1;
    }
    if m.commitPosition.Some? {
      Int64RoundTrip(m.commitPosition.value);
      assert FoldFields(S, acc, fs, k) == FoldFields(S, acc.(commitPosition := m.commitPosition), fs, k + 1);
      acc, k := acc.(commitPosition := m.commitPosition), k + 1;
    }
    assert acc == m && k == |fs|;
  }

  lemma DeleteStreamCompletedFold(m: DeleteStreamCompleted)
    requires DeleteStreamCompletedValid(m)
    ensures FoldFields(DeleteStreamCompletedStep, DeleteStreamCompletedDefault, DeleteStreamCompletedFields(m), 0) == Ok(m)
  {
    var mid := DeleteStreamCompletedDefault.(result := m.result, message := m.message);
    DeleteStreamCompletedHeadRead(m);
    DeleteStreamCompletedTailRead(m, mid);
    FoldSnoc(DeleteStreamCompletedStep, DeleteStreamCompletedDefault,
             DeleteStreamCompletedHead(m), DeleteStreamCompletedTail(m), mid, m);
  }

  lemma DeleteStreamCompletedRoundTrip(m: DeleteStreamCompleted)
    requires DeleteStreamCompletedValid(m)
    ensures DecodeDeleteStreamCompleted(EncodeDeleteStreamCompleted(m)) == Ok(m)
  {
    ReadMessage(DeleteStreamCompletedStep, DeleteStreamCompletedDefault, DeleteStreamCompletedFields(m));
    DeleteStreamCompletedFold(m);
  }
}
