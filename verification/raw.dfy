/**
 * `RawMessage` (src/raw/mod.rs): every message of the protocol as the
 * protobuf decoding gives it, with nothing validated on top. A message is
 * told apart on the wire by a one-byte discriminator; the read requests and
 * responses carry their direction in it.
 */
module Raw {
  import opened Ints
  import opened Wrappers
  import Errors
  import opened Utf8
  import opened ReadDirections
  import Io
  import Protobuf
  import WriteMessages
  import ReadMessages

  datatype RawMessage =
    | HeartbeatRequest
    | HeartbeatResponse
    | Ping
    | Pong
    | WriteEvents(writeEvents: WriteMessages.WriteEvents)
    | WriteEventsCompleted(writeEventsCompleted: WriteMessages.WriteEventsCompleted)
    | DeleteStream(deleteStream: WriteMessages.DeleteStream)
    | DeleteStreamCompleted(deleteStreamCompleted: WriteMessages.DeleteStreamCompleted)
    | ReadEvent(readEvent: ReadMessages.ReadEvent)
    | ReadEventCompleted(readEventCompleted: ReadMessages.ReadEventCompleted)
    | ReadStreamEvents(streamDirection: ReadDirection, readStreamEvents: ReadMessages.ReadStreamEvents)
    | ReadStreamEventsCompleted(streamDirection: ReadDirection, readStreamEventsCompleted: ReadMessages.ReadStreamEventsCompleted)
    | ReadAllEvents(allDirection: ReadDirection, readAllEvents: ReadMessages.ReadAllEvents)
    | ReadAllEventsCompleted(allDirection: ReadDirection, readAllEventsCompleted: ReadMessages.ReadAllEventsCompleted)
      // `BadRequestPayload`: arbitrary bytes, possibly UTF-8 text
    | BadRequest(badRequest: seq<Byte>)
    | NotHandled(notHandled: ReadMessages.NotHandled)
    | Authenticate
    | Authenticated
      // `NotAuthenticatedPayload`: arbitrary bytes, possibly UTF-8 text
    | NotAuthenticated(notAuthenticated: seq<Byte>)
      // a discriminator this crate does not know and the undecoded body
    | Unsupported(discriminator: Byte, payload: seq<Byte>)

  /** Discriminators whose body is a protobuf message. */
  predicate CarriesProtobuf(d: Byte) {
    d == 0x82 || d == 0x83 || d == 0x8A || d == 0x8B || 0xB0 <= d <= 0xB9 || d == 0xF1
  }

  /** Discriminators of the messages that hold no data. */
  predicate IsDataless(d: Byte) {
    1 <= d <= 4 || d == 0xF2 || d == 0xF3
  }

  /** Discriminators `decode` gives a variant of their own. */
  predicate IsKnown(d: Byte) {
    CarriesProtobuf(d) || IsDataless(d) || d == 0xF0 || d == 0xF4
  }

  /** `RawMessage::discriminator`. */
  function Discriminator(m: RawMessage): (d: Byte)
    ensures m.Unsupported? || IsKnown(d)
  {
    match m
    case HeartbeatRequest => 0x01
    case HeartbeatResponse => 0x02
    case Ping => 0x03
    case Pong => 0x04
    case WriteEvents(_) => 0x82
    case WriteEventsCompleted(_) => 0x83
    case DeleteStream(_) => 0x8A
    case DeleteStreamCompleted(_) => 0x8B
    case ReadEvent(_) => 0xB0
    case ReadEventCompleted(_) => 0xB1
    case ReadStreamEvents(Forward, _) => 0xB2
    case ReadStreamEventsCompleted(Forward, _) => 0xB3
    case ReadStreamEvents(Backward, _) => 0xB4
    case ReadStreamEventsCompleted(Backward, _) => 0xB5
    case ReadAllEvents(Forward, _) => 0xB6
    case ReadAllEventsCompleted(Forward, _) => 0xB7
    case ReadAllEvents(Backward, _) => 0xB8
    case ReadAllEventsCompleted(Backward, _) => 0xB9
    case BadRequest(_) => 0xF0
    case NotHandled(_) => 0xF1
    case Authenticate => 0xF2
    case Authenticated => 0xF3
    case NotAuthenticated(_) => 0xF4
    case Unsupported(d, _) => d
  }

  /** Two messages of the same variant, reading or writing in the same direction where the variant has one. */
  predicate SameVariant(a: RawMessage, b: RawMessage) {
    match (a, b)
    case (HeartbeatRequest, HeartbeatRequest) => true
    case (HeartbeatResponse, HeartbeatResponse) => true
    case (Ping, Ping) => true
    case (Pong, Pong) => true
    case (WriteEvents(_), WriteEvents(_)) => true
    case (WriteEventsCompleted(_), WriteEventsCompleted(_)) => true
    case (DeleteStream(_), DeleteStream(_)) => true
    case (DeleteStreamCompleted(_), DeleteStreamCompleted(_)) => true
    case (ReadEvent(_), ReadEvent(_)) => true
    case (ReadEventCompleted(_), ReadEventCompleted(_)) => true
    case (ReadStreamEvents(x, _), ReadStreamEvents(y, _)) => x == y
    case (ReadStreamEventsCompleted(x, _), ReadStreamEventsCompleted(y, _)) => x == y
    case (ReadAllEvents(x, _), ReadAllEvents(y, _)) => x == y
    case (ReadAllEventsCompleted(x, _), ReadAllEventsCompleted(y, _)) => x == y
    case (BadRequest(_), BadRequest(_)) => true
    case (NotHandled(_), NotHandled(_)) => true
    case (Authenticate, Authenticate) => true
    case (Authenticated, Authenticated) => true
    case (NotAuthenticated(_), NotAuthenticated(_)) => true
    case (Unsupported(x, _), Unsupported(y, _)) => x == y
    case _ => false
  }

  /**
   * Every known variant, in each direction, has a discriminator of its own:
   * two messages that are not `Unsupported` share a discriminator exactly
   * when they are the same variant.
   */
  lemma DiscriminatorDeterminesVariant(a: RawMessage, b: RawMessage)
    requires !a.Unsupported? && !b.Unsupported?
    ensures Discriminator(a) == Discriminator(b) <==> SameVariant(a, b)
  {
  }

  /** The fields `write_message` writes for a message with a protobuf body. */
  function ProtobufFields(m: RawMessage): seq<Protobuf.Field>
    requires CarriesProtobuf(Discriminator(m))
  {
    match m
    case WriteEvents(x) => WriteMessages.WriteEventsFields(x)
    case WriteEventsCompleted(x) => WriteMessages.WriteEventsCompletedFields(x)
    case DeleteStream(x) => WriteMessages.DeleteStreamFields(x)
    case DeleteStreamCompleted(x) => WriteMessages.DeleteStreamCompletedFields(x)
    case ReadEvent(x) => ReadMessages.ReadEventFields(x)
    case ReadEventCompleted(x) => ReadMessages.ReadEventCompletedFields(x)
    case ReadStreamEvents(_, x) => ReadMessages.ReadStreamEventsFields(x)
    case ReadStreamEventsCompleted(_, x) => ReadMessages.ReadStreamEventsCompletedFields(x)
    case ReadAllEvents(_, x) => ReadMessages.ReadAllEventsFields(x)
    case ReadAllEventsCompleted(_, x) => ReadMessages.ReadAllEventsCompletedFields(x)
    case NotHandled(x) => ReadMessages.NotHandledFields(x)
    case _ => []
  }

  /** The bytes a message without a protobuf body writes: its opaque payload, or nothing. */
  function Payload(m: RawMessage): seq<Byte> {
    match m
    case BadRequest(b) => b
    case NotAuthenticated(b) => b
    case Unsupported(_, b) => b
    case _ => []
  }

  /** The bytes `RawMessage::encode` writes. */
  function Encoding(m: RawMessage): seq<Byte> {
    if CarriesProtobuf(Discriminator(m)) then Protobuf.Serialize(ProtobufFields(m)) else Payload(m)
  }

  /** The append and delete arms of `RawMessage::decode`. */
  function DecodeWriteBody(discriminator: Byte, buf: seq<Byte>): (r: Result<RawMessage, Errors.ErrorKind>)
    requires discriminator in {0x82, 0x83, 0x8A, 0x8B}
    ensures r.Ok? ==> Discriminator(r.value) == discriminator
  {
    match discriminator
    case 0x82 => var x :- WriteMessages.DecodeWriteEvents(buf); Ok(WriteEvents(x))
    case 0x83 => var x :- WriteMessages.DecodeWriteEventsCompleted(buf); Ok(WriteEventsCompleted(x))
    case 0x8A => var x :- WriteMessages.DecodeDeleteStream(buf); Ok(DeleteStream(x))
    case 0x8B => var x :- WriteMessages.DecodeDeleteStreamCompleted(buf); Ok(DeleteStreamCompleted(x))
  }

  /** The read arms of `RawMessage::decode`: even discriminators are requests, odd ones responses. */
  function DecodeReadBody(discriminator: Byte, buf: seq<Byte>): (r: Result<RawMessage, Errors.ErrorKind>)
    requires 0xB0 <= discriminator <= 0xB9
    ensures r.Ok? ==> Discriminator(r.value) == discriminator
  {
    match discriminator
    case 0xB0 => var x :- ReadMessages.DecodeReadEvent(buf); Ok(ReadEvent(x))
    case 0xB1 => var x :- ReadMessages.DecodeReadEventCompleted(buf); Ok(ReadEventCompleted(x))
    case 0xB2 => var x :- ReadMessages.DecodeReadStreamEvents(buf); Ok(ReadStreamEvents(Forward, x))
    case 0xB3 => var x :- ReadMessages.DecodeReadStreamEventsCompleted(buf); Ok(ReadStreamEventsCompleted(Forward, x))
    case 0xB4 => var x :- ReadMessages.DecodeReadStreamEvents(buf); Ok(ReadStreamEvents(Backward, x))
    case 0xB5 => var x :- ReadMessages.DecodeReadStreamEventsCompleted(buf); Ok(ReadStreamEventsCompleted(Backward, x))
    case 0xB6 => var x :- ReadMessages.DecodeReadAllEvents(buf); Ok(ReadAllEvents(Forward, x))
    case 0xB7 => var x :- ReadMessages.DecodeReadAllEventsCompleted(buf); Ok(ReadAllEventsCompleted(Forward, x))
    case 0xB8 => var x :- ReadMessages.DecodeReadAllEvents(buf); Ok(ReadAllEvents(Backward, x))
    case 0xB9 => var x :- ReadMessages.DecodeReadAllEventsCompleted(buf); Ok(ReadAllEventsCompleted(Backward, x))
  }

  /**
   * `RawMessage::decode`: dispatch on the discriminator. A data-less message
   * ignores the body, the bad-request and not-authenticated payloads and an
   * unknown discriminator's body are kept verbatim, and only a protobuf body
   * can fail to decode.
   */
  function Decode(discriminator: Byte, buf: seq<Byte>): (r: Result<RawMessage, Errors.ErrorKind>)
    ensures r.Ok? ==> Discriminator(r.value) == discriminator
    ensures r.Ok? ==> (r.value.Unsupported? <==> !IsKnown(discriminator))
    ensures !CarriesProtobuf(discriminator) ==> r.Ok?
    ensures !CarriesProtobuf(discriminator) ==> Payload(r.value) == if IsDataless(discriminator) then [] else buf
  {
    match discriminator
    case 0x01 => Ok(HeartbeatRequest)
    case 0x02 => Ok(HeartbeatResponse)
    case 0x03 => Ok(Ping)
    case 0x04 => Ok(Pong)
    case 0xF0 => Ok(BadRequest(buf))
    case 0xF1 => var x :- ReadMessages.DecodeNotHandled(buf); Ok(NotHandled(x))
    case 0xF2 => Ok(Authenticate)
    case 0xF3 => Ok(Authenticated)
    case 0xF4 => Ok(NotAuthenticated(buf))
    case _ =>
      if discriminator in {0x82, 0x83, 0x8A, 0x8B} then DecodeWriteBody(discriminator, buf)
      else if 0xB0 <= discriminator <= 0xB9 then DecodeReadBody(discriminator, buf)
      else Ok(Unsupported(discriminator, buf))
  }

  /**
   * The messages that come back from `decode` as they were encoded: their
   * strings are UTF-8, and an `Unsupported` does not use a discriminator
   * that `decode` gives to a variant of its own.
   */
  predicate Encodable(m: RawMessage) {
    match m
    case WriteEvents(x) => WriteMessages.WriteEventsValid(x)
    case WriteEventsCompleted(x) => WriteMessages.WriteEventsCompletedValid(x)
    case DeleteStream(x) => WriteMessages.DeleteStreamValid(x)
    case DeleteStreamCompleted(x) => WriteMessages.DeleteStreamCompletedValid(x)
    case ReadEvent(x) => ReadMessages.ReadEventValid(x)
    case ReadEventCompleted(x) => ReadMessages.ReadEventCompletedValid(x)
    case ReadStreamEvents(_, x) => ReadMessages.ReadStreamEventsValid(x)
    case ReadStreamEventsCompleted(_, x) => ReadMessages.ReadStreamEventsCompletedValid(x)
    case ReadAllEventsCompleted(_, x) => ReadMessages.ReadAllEventsCompletedValid(x)
    case Unsupported(d, _) => !IsKnown(d)
    case _ => true
  }

  // The protobuf arms of `decode`, one message each.

  lemma DecodesWriteEvents(x: WriteMessages.WriteEvents, bytes: seq<Byte>)
    requires WriteMessages.DecodeWriteEvents(bytes) == Ok(x)
    ensures Decode(0x82, bytes) == Ok(WriteEvents(x))
  {
  }

  lemma DecodesWriteEventsCompleted(x: WriteMessages.WriteEventsCompleted, bytes: seq<Byte>)
    requires WriteMessages.DecodeWriteEventsCompleted(bytes) == Ok(x)
    ensures Decode(0x83, bytes) == Ok(WriteEventsCompleted(x))
  {
  }

  lemma DecodesDeleteStream(x: WriteMessages.DeleteStream, bytes: seq<Byte>)
    requires WriteMessages.DecodeDeleteStream(bytes) == Ok(x)
    ensures Decode(0x8A, bytes) == Ok(DeleteStream(x))
  {
  }

  lemma DecodesDeleteStreamCompleted(x: WriteMessages.DeleteStreamCompleted, bytes: seq<Byte>)
    requires WriteMessages.DecodeDeleteStreamCompleted(bytes) == Ok(x)
    ensures Decode(0x8B, bytes) == Ok(DeleteStreamCompleted(x))
  {
  }

  lemma DecodesReadEvent(x: ReadMessages.ReadEvent, bytes: seq<Byte>)
    requires ReadMessages.DecodeReadEvent(bytes) == Ok(x)
    ensures Decode(0xB0, bytes) == Ok(ReadEvent(x))
  {
  }

  lemma DecodesReadEventCompleted(x: ReadMessages.ReadEventCompleted, bytes: seq<Byte>)
    requires ReadMessages.DecodeReadEventCompleted(bytes) == Ok(x)
    ensures Decode(0xB1, bytes) == Ok(ReadEventCompleted(x))
  {
  }

  lemma DecodesReadStreamEvents(dir: ReadDirection, x: ReadMessages.ReadStreamEvents, bytes: seq<Byte>)
    requires ReadMessages.DecodeReadStreamEvents(bytes) == Ok(x)
    ensures Decode(Discriminator(ReadStreamEvents(dir, x)), bytes) == Ok(ReadStreamEvents(dir, x))
  {
    if dir == Forward {
      assert Decode(0xB2, bytes) == Ok(ReadStreamEvents(Forward, x));
    } else {
      assert Decode(0xB4, bytes) == Ok(ReadStreamEvents(Backward, x));
    }
  }

  lemma DecodesReadStreamEventsCompleted(dir: ReadDirection, x: ReadMessages.ReadStreamEventsCompleted, bytes: seq<Byte>)
    requires ReadMessages.DecodeReadStreamEventsCompleted(bytes) == Ok(x)
    ensures Decode(Discriminator(ReadStreamEventsCompleted(dir, x)), bytes) == Ok(ReadStreamEventsCompleted(dir, x))
  {
    if dir == Forward {
      assert Decode(0xB3, bytes) == Ok(ReadStreamEventsCompleted(Forward, x));
    } else {
      assert Decode(0xB5, bytes) == Ok(ReadStreamEventsCompleted(Backward, x));
    }
  }

  lemma DecodesReadAllEvents(dir: ReadDirection, x: ReadMessages.ReadAllEvents, bytes: seq<Byte>)
    requires ReadMessages.DecodeReadAllEvents(bytes) == Ok(x)
    ensures Decode(Discriminator(ReadAllEvents(dir, x)), bytes) == Ok(ReadAllEvents(dir, x))
  {
    if dir == Forward {
      assert Decode(0xB6, bytes) == Ok(ReadAllEvents(Forward, x));
    } else {
      assert Decode(0xB8, bytes) == Ok(ReadAllEvents(Backward, x));
    }
  }

  lemma DecodesReadAllEventsCompleted(dir: ReadDirection, x: ReadMessages.ReadAllEventsCompleted, bytes: seq<Byte>)
    requires ReadMessages.DecodeReadAllEventsCompleted(bytes) == Ok(x)
    ensures Decode(Discriminator(ReadAllEventsCompleted(dir, x)), bytes) == Ok(ReadAllEventsCompleted(dir, x))
  {
    if dir == Forward {
      assert Decode(0xB7, bytes) == Ok(ReadAllEventsCompleted(Forward, x));
    } else {
      assert Decode(0xB9, bytes) == Ok(ReadAllEventsCompleted(Backward, x));
    }
  }

  lemma DecodesNotHandled(x: ReadMessages.NotHandled, bytes: seq<Byte>)
    requires ReadMessages.DecodeNotHandled(bytes) == Ok(x)
    ensures Decode(0xF1, bytes) == Ok(NotHandled(x))
  {
  }

  /** A message without a protobuf body is determined by its discriminator and its payload. */
  lemma PayloadDeterminesMessage(a: RawMessage, b: RawMessage)
    requires !CarriesProtobuf(Discriminator(a)) && Discriminator(a) == Discriminator(b)
    requires a.Unsupported? == b.Unsupported?
    requires Payload(a) == Payload(b)
    ensures a == b
  {
    match a
    case Unsupported(_, _) =>
    case BadRequest(_) =>
    case NotAuthenticated(_) =>
    case _ =>
  }

  /** Decoding what `encode` wrote, under the message's own discriminator, gives the message back. */
  lemma RoundTrip(m: RawMessage)
    requires Encodable(m)
    ensures Decode(Discriminator(m), Encoding(m)) == Ok(m)
  {
    match m
    case WriteEvents(x) =>
      WriteMessages.WriteEventsRoundTrip(x);
      DecodesWriteEvents(x, Encoding(m));
    case WriteEventsCompleted(x) =>
      WriteMessages.WriteEventsCompletedRoundTrip(x);
      DecodesWriteEventsCompleted(x, Encoding(m));
    case DeleteStream(x) =>
      WriteMessages.DeleteStreamRoundTrip(x);
      DecodesDeleteStream(x, Encoding(m));
    case DeleteStreamCompleted(x) =>
      WriteMessages.DeleteStreamCompletedRoundTrip(x);
      DecodesDeleteStreamCompleted(x, Encoding(m));
    case ReadEvent(x) =>
      ReadMessages.ReadEventRoundTrip(x);
      DecodesReadEvent(x, Encoding(m));
    case ReadEventCompleted(x) =>
      ReadMessages.ReadEventCompletedRoundTrip(x);
      DecodesReadEventCompleted(x, Encoding(m));
    case ReadStreamEvents(dir, x) =>
      ReadMessages.ReadStreamEventsRoundTrip(x);
      DecodesReadStreamEvents(dir, x, Encoding(m));
    case ReadStreamEventsCompleted(dir, x) =>
      ReadMessages.ReadStreamEventsCompletedRoundTrip(x);
      DecodesReadStreamEventsCompleted(dir, x, Encoding(m));
    case ReadAllEvents(dir, x) =>
      ReadMessages.ReadAllEventsRoundTrip(x);
      DecodesReadAllEvents(dir, x, Encoding(m));
    case ReadAllEventsCompleted(dir, x) =>
      ReadMessages.ReadAllEventsCompletedRoundTrip(x);
      DecodesReadAllEventsCompleted(dir, x, Encoding(m));
    case NotHandled(x) =>
      ReadMessages.NotHandledRoundTrip(x);
      DecodesNotHandled(x, Encoding(m));
    case _ => PayloadDeterminesMessage(m, Decode(Discriminator(m), Payload(m)).value);
  }

  /**
   * `RawMessage::encode` into an in-memory writer: a protobuf body through
   * `write_message`, an opaque payload with `write_all`, nothing for a
   * data-less message.
   */
  method Encode(m: RawMessage, w: Io.Cursor)
    requires w.Valid() && w.pos == |w.data|
    modifies w
    ensures w.Valid() && w.data == old(w.data) + Encoding(m) && w.pos == |w.data|
  {
    if CarriesProtobuf(Discriminator(m)) {
      Protobuf.WriteMessage(w, ProtobufFields(m));
    } else {
      w.WriteAll(Payload(m));
    }
  }

  /**
   * `ByteWrapper::into_str_wrapper`: the payload as text when it is UTF-8;
   * otherwise the payload handed back unchanged, with the UTF-8 error.
   */
  function IntoStr(payload: seq<Byte>): (r: Result<seq<Byte>, (seq<Byte>, Errors.ErrorKind)>)
    ensures r.Ok? <==> IsUtf8(payload)
    ensures r.Ok? ==> r.value == payload
    ensures r.Err? ==> r.error == (payload, Errors.Utf8Error)
  {
    if IsUtf8(payload) then Ok(payload) else Err((payload, Errors.Utf8Error))
  }
}
