/**
 * Request builders (src/builder.rs): mutable objects whose setters fill in
 * optional fields and whose `build_package` moves the collected values into
 * a ready-to-send package, applying the defaults and leaving the taken
 * fields empty. A setter or build that panics in the source has that
 * condition as its precondition here. Where the source generates a random
 * UUID, the value it would generate is a parameter.
 */
module Builder {
  import opened Ints
  import opened Wrappers
  import opened StreamVersions
  import opened ReadDirections
  import EN = EventNumbers
  import EV = ExpectedVersions
  import CT = ContentTypes
  import ER = EventRecords
  import WM = WriteMessages
  import RM = ReadMessages
  import Raw
  import Auth
  import P = Package

  /** builder.rs's `ExpectedVersion`: no locking, a stream that must not exist, or an exact version. */
  datatype ExpectedVersion = Any | NewStream | Exact(version: StreamVersion)

  /** `Into<i32>`: -2 and -1 for the two modes, the version itself otherwise. */
  function ExpectedVersionToI32(e: ExpectedVersion): (r: I32)
    ensures r >= -2
    ensures r == -2 <==> e.Any?
    ensures r == -1 <==> e.NewStream?
    ensures e.Exact? ==> r == StreamVersions.ToI32(e.version)
  {
    match e
    case Any => -2
    case NewStream => -1
    case Exact(v) => StreamVersions.ToI32(v)
  }

  /**
   * Unlike the `ExpectedVersion` of src/expected_version.rs, whose `u32`
   * versions can wrap onto the sentinels, this one never confuses two values
   * on the wire; and it sends what the other sends for the same request.
   */
  lemma ExpectedVersionWire(a: ExpectedVersion, b: ExpectedVersion)
    ensures ExpectedVersionToI32(a) == ExpectedVersionToI32(b) ==> a == b
    ensures ExpectedVersionToI32(a) == EV.ToI32(match a
                                                case Any => EV.Any
                                                case NewStream => EV.NoStream
                                                case Exact(v) => EV.Exact(ToU32(v)))
  {
  }

  /** builder.rs's `EventNumber` compares by wire value (its `PartialEq`). */
  predicate SameEventNumber(a: EN.EventNumber, b: EN.EventNumber) {
    EN.ToI32(a) == EN.ToI32(b)
  }

  /**
   * That equality is structural equality except that `First` equals
   * `Exact(0)`, both ways round.
   */
  lemma SameEventNumberIff(a: EN.EventNumber, b: EN.EventNumber)
    ensures SameEventNumber(a, b) <==>
      a == b || {a, b} == {EN.First, EN.Exact(StreamVersion(0))}
  {
    EN.WireCollision(a, b);
  }

  /** The `"$all"` stream id, which read-stream requests refuse. */
  const ALL_STREAM: seq<Byte> := [0x24, 0x61, 0x6c, 0x6c]

  /** The default page size of a read-stream request. */
  const DEFAULT_MAX_COUNT: Byte := 10

  /**
   * The free `build_package` (and `SimpleBuilder::build_package`): the
   * message with the credentials, and the given correlation id or else a
   * random one, standing here as `random`.
   */
  function PackageOf(message: Raw.RawMessage, authentication: Option<Auth.UsernamePassword>,
                     correlationId: Option<P.Uuid>, random: P.Uuid): (p: P.Package)
    ensures p.message == P.Raw(message) && p.authentication == authentication
    ensures correlationId.Some? ==> p.correlationId == correlationId.value
    ensures correlationId.None? ==> p.correlationId == random
  {
    P.Package(authentication, correlationId.UnwrapOr(random), P.Raw(message))
  }

  /** `Builder::ping` and `Builder::authenticate`: a message without contents. */
  datatype SimpleBuilder = SimpleBuilder(message: Raw.RawMessage)

  const Ping: SimpleBuilder := SimpleBuilder(Raw.Ping)
  const Authenticate: SimpleBuilder := SimpleBuilder(Raw.Authenticate)

  /** The packages of the two simple builders carry no body, whatever the credentials. */
  lemma SimplePackagesAreDataless(authentication: Option<Auth.UsernamePassword>,
                                  correlationId: Option<P.Uuid>, random: P.Uuid)
    ensures var p := PackageOf(Ping.message, authentication, correlationId, random);
      Raw.IsDataless(Raw.Discriminator(p.message.raw)) && Raw.Payload(p.message.raw) == []
    ensures var p := PackageOf(Authenticate.message, authentication, correlationId, random);
      Raw.IsDataless(Raw.Discriminator(p.message.raw)) && Raw.Payload(p.message.raw) == []
  {
  }

  /** Collects a write: the stream, the expected version, the master flag and the events. */
  class WriteEventsBuilder {
    var eventStreamId: Option<seq<Byte>>
    var expectedVersion: Option<ExpectedVersion>
    var requireMaster: Option<bool>
    var events: seq<ER.NewEvent>

    /** The stream id, once set, is not empty. */
    predicate Valid()
      reads this
    {
      eventStreamId.Some? ==> |eventStreamId.value| > 0
    }

    /** Nothing set and no events. */
    predicate IsEmpty()
      reads this
    {
      eventStreamId.None? && expectedVersion.None? && requireMaster.None? && events == []
    }

    constructor ()
      ensures Valid() && IsEmpty()
    {
      eventStreamId := None;
      expectedVersion := None;
      requireMaster := None;
      events := [];
    }

    /** `stream_id`, which panics on an empty id. */
    method SetStreamId(id: seq<Byte>)
      requires |id| > 0
      modifies this`eventStreamId
      ensures Valid() && eventStreamId == Some(id)
    {
      eventStreamId := Some(id);
    }

    method SetExpectedVersion(version: ExpectedVersion)
      modifies this`expectedVersion
      ensures expectedVersion == Some(version) && (Valid() <==> old(Valid()))
    {
      expectedVersion := Some(version);
    }

    method SetRequireMaster(require: bool)
      modifies this`requireMaster
      ensures requireMaster == Some(require) && (Valid() <==> old(Valid()))
    {
      requireMaster := Some(require);
    }

    /** `new_event`: a builder for one event, attached to this one. */
    method NewEvent() returns (b: NewEventBuilder)
      ensures fresh(b) && b.parent == this && b.IsEmpty()
    {
      b := new NewEventBuilder(this);
    }

    /** `push_event`: the event goes after those already added. */
    method PushEvent(event: ER.NewEvent)
      modifies this`events
      ensures events == old(events) + [event] && (Valid() <==> old(Valid()))
    {
      events := events + [event];
    }

    /**
     * `build_command`: the collected write, with the expected version
     * defaulting to `Any` and the master flag to false. Every field is
     * taken, so the builder is left empty.
     */
    method BuildCommand() returns (w: WM.WriteEvents)
      requires Valid() && eventStreamId.Some?
      modifies this
      ensures w == WM.WriteEvents(old(eventStreamId).value,
                                  ExpectedVersionToI32(old(expectedVersion).UnwrapOr(Any)),
                                  old(events),
                                  old(requireMaster).UnwrapOr(false))
      ensures |w.eventStreamId| > 0
      ensures Valid() && IsEmpty()
    {
      w := WM.WriteEvents(eventStreamId.value, ExpectedVersionToI32(expectedVersion.UnwrapOr(Any)),
                          events, requireMaster.UnwrapOr(false));
      eventStreamId := None;
      expectedVersion := None;
      requireMaster := None;
      events := [];
    }

    /** `build_package`: the write command in a package. */
    method BuildPackage(authentication: Option<Auth.UsernamePassword>, correlationId: Option<P.Uuid>,
                        random: P.Uuid) returns (p: P.Package)
      requires Valid() && eventStreamId.Some?
      modifies this
      ensures p == PackageOf(Raw.WriteEvents(WM.WriteEvents(
                     old(eventStreamId).value,
                     ExpectedVersionToI32(old(expectedVersion).UnwrapOr(Any)),
                     old(events),
                     old(requireMaster).UnwrapOr(false))), authentication, correlationId, random)
      ensures Valid() && IsEmpty()
    {
      var command := BuildCommand();
      p := PackageOf(Raw.WriteEvents(command), authentication, correlationId, random);
    }
  }

  /** The event a `NewEventBuilder` adds: content types default to bytes, a missing id to `random`. */
  function NewEventOf(eventId: Option<P.Uuid>, eventType: seq<Byte>, dataContentType: Option<CT.ContentType>,
                      metadataContentType: Option<CT.ContentType>, data: seq<Byte>,
                      metadata: Option<seq<Byte>>, random: P.Uuid): (e: ER.NewEvent)
    ensures e.eventType == eventType && e.data == data && e.metadata == metadata
    ensures e.eventId == if eventId.Some? then eventId.value else random
    ensures dataContentType.None? ==> e.dataContentType == 0
    ensures metadataContentType.None? ==> e.metadataContentType == 0
    ensures e.dataContentType == 1 <==> dataContentType == Some(CT.Json)
    ensures e.metadataContentType == 1 <==> metadataContentType == Some(CT.Json)
  {
    ER.NewEvent(eventId.UnwrapOr(random), eventType,
                CT.ToI32(dataContentType.UnwrapOr(CT.Bytes)),
                CT.ToI32(metadataContentType.UnwrapOr(CT.Bytes)),
                data, metadata)
  }

  /** Collects one event of a write; `done` adds it to the parent, `cancel` drops it. */
  class NewEventBuilder {
    const parent: WriteEventsBuilder
    var eventId: Option<P.Uuid>
    var eventType: Option<seq<Byte>>
    var dataContentType: Option<CT.ContentType>
    var metadataContentType: Option<CT.ContentType>
    var data: Option<seq<Byte>>
    var metadata: Option<seq<Byte>>

    predicate IsEmpty()
      reads this
    {
      eventId.None? && eventType.None? && dataContentType.None? && metadataContentType.None?
      && data.None? && metadata.None?
    }

    constructor (parent: WriteEventsBuilder)
      ensures this.parent == parent && IsEmpty()
    {
      this.parent := parent;
      eventId := None;
      eventType := None;
      dataContentType := None;
      metadataContentType := None;
      data := None;
      metadata := None;
    }

    method SetEventId(id: P.Uuid)
      modifies this`eventId
      ensures eventId == Some(id)
    {
      eventId := Some(id);
    }

    method SetEventType(ty: seq<Byte>)
      modifies this`eventType
      ensures eventType == Some(ty)
    {
      eventType := Some(ty);
    }

    method SetData(bytes: seq<Byte>)
      modifies this`data
      ensures data == Some(bytes)
    {
      data := Some(bytes);
    }

    method SetDataContentType(contentType: CT.ContentType)
      modifies this`dataContentType
      ensures dataContentType == Some(contentType)
    {
      dataContentType := Some(contentType);
    }

    method SetMetadata(bytes: seq<Byte>)
      modifies this`metadata
      ensures metadata == Some(bytes)
    {
      metadata := Some(bytes);
    }

    method SetMetadataContentType(contentType: CT.ContentType)
      modifies this`metadataContentType
      ensures metadataContentType == Some(contentType)
    {
      metadataContentType := Some(contentType);
    }

    /**
     * `done`, which panics without an event type or data: the event is
     * appended to the parent's events, and nothing else of the parent changes.
     */
    method Done(random: P.Uuid) returns (w: WriteEventsBuilder)
      requires eventType.Some? && data.Some?
      modifies parent`events
      ensures w == parent
      ensures parent.events == old(parent.events)
        + [NewEventOf(eventId, eventType.value, dataContentType, metadataContentType, data.value, metadata, random)]
    {
      var event := NewEventOf(eventId, eventType.value, dataContentType, metadataContentType,
                              data.value, metadata, random);
      parent.PushEvent(event);
      w := parent;
    }

    /** `cancel`: the parent, untouched. */
    method Cancel() returns (w: WriteEventsBuilder)
      ensures w == parent
    {
      w := parent;
    }
  }

  /** Collects a single-event read. */
  class ReadEventBuilder {
    var eventStreamId: Option<seq<Byte>>
    var eventNumber: Option<EN.EventNumber>
    var resolveLinkTos: Option<bool>
    var requireMaster: Option<bool>

    predicate Valid()
      reads this
    {
      eventStreamId.Some? ==> |eventStreamId.value| > 0
    }

    predicate IsEmpty()
      reads this
    {
      eventStreamId.None? && eventNumber.None? && resolveLinkTos.None? && requireMaster.None?
    }

    constructor ()
      ensures Valid() && IsEmpty()
    {
      eventStreamId := None;
      eventNumber := None;
      resolveLinkTos := None;
      requireMaster := None;
    }

    /** `stream_id`, which panics on an empty id. */
    method SetStreamId(id: seq<Byte>)
      requires |id| > 0
      modifies this`eventStreamId
      ensures Valid() && eventStreamId == Some(id)
    {
      eventStreamId := Some(id);
    }

    method SetEventNumber(number: EN.EventNumber)
      modifies this`eventNumber
      ensures eventNumber == Some(number) && (Valid() <==> old(Valid()))
    {
      eventNumber := Some(number);
    }

    method SetResolveLinkTos(resolve: bool)
      modifies this`resolveLinkTos
      ensures resolveLinkTos == Some(resolve) && (Valid() <==> old(Valid()))
    {
      resolveLinkTos := Some(resolve);
    }

    method SetRequireMaster(require: bool)
      modifies this`requireMaster
      ensures requireMaster == Some(require) && (Valid() <==> old(Valid()))
    {
      requireMaster := Some(require);
    }

    /**
     * `build_command`, which panics without a stream or an event number:
     * links are resolved and the master is not required unless set. Every
     * field is taken.
     */
    method BuildCommand() returns (r: RM.ReadEvent)
      requires Valid() && eventStreamId.Some? && eventNumber.Some?
      modifies this
      ensures r == RM.ReadEvent(old(eventStreamId).value, EN.ToI32(old(eventNumber).value),
                                old(resolveLinkTos).UnwrapOr(true), old(requireMaster).UnwrapOr(false))
      ensures |r.eventStreamId| > 0 && r.eventNumber >= -1
      ensures Valid() && IsEmpty()
    {
      r := RM.ReadEvent(eventStreamId.value, EN.ToI32(eventNumber.value),
                        resolveLinkTos.UnwrapOr(true), requireMaster.UnwrapOr(false));
      eventStreamId := None;
      eventNumber := None;
      resolveLinkTos := None;
      requireMaster := None;
    }

    /** `build_package`: the read command in a package. */
    method BuildPackage(authentication: Option<Auth.UsernamePassword>, correlationId: Option<P.Uuid>,
                        random: P.Uuid) returns (p: P.Package)
      requires Valid() && eventStreamId.Some? && eventNumber.Some?
      modifies this
      ensures p == PackageOf(Raw.ReadEvent(RM.ReadEvent(
                     old(eventStreamId).value, EN.ToI32(old(eventNumber).value),
                     old(resolveLinkTos).UnwrapOr(true), old(requireMaster).UnwrapOr(false))),
                   authentication, correlationId, random)
      ensures Valid() && IsEmpty()
    {
      var command := BuildCommand();
      p := PackageOf(Raw.ReadEvent(command), authentication, correlationId, random);
    }
  }

  /** Collects a read of a page of a stream, in either direction. */
  class ReadStreamEventsBuilder {
    var direction: Option<ReadDirection>
    var eventStreamId: Option<seq<Byte>>
    var fromEventNumber: Option<EN.EventNumber>
    var maxCount: Option<Byte>
    var resolveLinkTos: Option<bool>
    var requireMaster: Option<bool>

    /** The stream, once set, is neither empty nor `$all`; the page size, once set, is positive. */
    predicate Valid()
      reads this
    {
      (eventStreamId.Some? ==> |eventStreamId.value| > 0 && eventStreamId.value != ALL_STREAM)
      && (maxCount.Some? ==> maxCount.value > 0)
    }

    constructor ()
      ensures Valid()
      ensures direction.None? && eventStreamId.None? && fromEventNumber.None?
      ensures maxCount.None? && resolveLinkTos.None? && requireMaster.None?
    {
      direction := None;
      eventStreamId := None;
      fromEventNumber := None;
      maxCount := None;
      resolveLinkTos := None;
      requireMaster := None;
    }

    method SetDirection(dir: ReadDirection)
      modifies this`direction
      ensures direction == Some(dir) && (Valid() <==> old(Valid()))
    {
      direction := Some(dir);
    }

    /** `max_count`, which panics on zero. */
    method SetMaxCount(count: Byte)
      requires Valid() && count > 0
      modifies this`maxCount
      ensures Valid() && maxCount == Some(count)
    {
      maxCount := Some(count);
    }

    /** `stream_id`, which panics on `"$all"` (reading it is unimplemented) and on an empty id. */
    method SetStreamId(id: seq<Byte>)
      requires Valid() && id != ALL_STREAM && |id| > 0
      modifies this`eventStreamId
      ensures Valid() && eventStreamId == Some(id)
    {
      eventStreamId := Some(id);
    }

    method SetFromEventNumber(number: EN.EventNumber)
      modifies this`fromEventNumber
      ensures fromEventNumber == Some(number) && (Valid() <==> old(Valid()))
    {
      fromEventNumber := Some(number);
    }

    method SetResolveLinkTos(resolve: bool)
      modifies this`resolveLinkTos
      ensures resolveLinkTos == Some(resolve) && (Valid() <==> old(Valid()))
    {
      resolveLinkTos := Some(resolve);
    }

    method SetRequireMaster(require: bool)
      modifies this`requireMaster
      ensures requireMaster == Some(require) && (Valid() <==> old(Valid()))
    {
      requireMaster := Some(require);
    }

    /**
     * `build_command`, which panics without a stream or a starting event: a
     * page of ten unless set, links resolved and the master not required
     * unless set. Only the stream and the starting event are taken; the
     * direction, page size and flags stay for the next request.
     */
    method BuildCommand() returns (r: RM.ReadStreamEvents)
      requires Valid() && eventStreamId.Some? && fromEventNumber.Some?
      modifies this`eventStreamId, this`fromEventNumber
      ensures r == RM.ReadStreamEvents(old(eventStreamId).value, EN.ToI32(old(fromEventNumber).value),
                                       maxCount.UnwrapOr(DEFAULT_MAX_COUNT),
                                       resolveLinkTos.UnwrapOr(true), requireMaster.UnwrapOr(false))
      ensures 0 < r.maxCount < 0x100 && r.eventStreamId != ALL_STREAM
      ensures Valid() && eventStreamId.None? && fromEventNumber.None?
    {
      r := RM.ReadStreamEvents(eventStreamId.value, EN.ToI32(fromEventNumber.value),
                               maxCount.UnwrapOr(DEFAULT_MAX_COUNT),
                               resolveLinkTos.UnwrapOr(true), requireMaster.UnwrapOr(false));
      eventStreamId := None;
      fromEventNumber := None;
    }

    /** `build_package`, which also panics without a direction: the read in that direction. */
    method BuildPackage(authentication: Option<Auth.UsernamePassword>, correlationId: Option<P.Uuid>,
                        random: P.Uuid) returns (p: P.Package)
      requires Valid() && direction.Some? && eventStreamId.Some? && fromEventNumber.Some?
      modifies this`eventStreamId, this`fromEventNumber
      ensures p == PackageOf(Raw.ReadStreamEvents(direction.value, RM.ReadStreamEvents(
                     old(eventStreamId).value, EN.ToI32(old(fromEventNumber).value),
                     maxCount.UnwrapOr(DEFAULT_MAX_COUNT),
                     resolveLinkTos.UnwrapOr(true), requireMaster.UnwrapOr(false))),
                   authentication, correlationId, random)
      ensures Valid() && eventStreamId.None? && fromEventNumber.None?
    {
      var dir := direction.value;
      var command := BuildCommand();
      p := PackageOf(Raw.ReadStreamEvents(dir, command), authentication, correlationId, random);
    }
  }

  /**
   * The write of the builder's own unit test: stream "foobar", one event of
   * type "foo" with the single data byte 0. Everything left unset takes its
   * default: any expected version, bytes content, no metadata, no master.
   */
  method BuildFoobarWrite(eventId: P.Uuid, correlationId: P.Uuid) returns (p: P.Package)
    ensures p.authentication.None? && p.correlationId == correlationId
    ensures p.message == P.Raw(Raw.WriteEvents(WM.WriteEvents(
              [0x66, 0x6f, 0x6f, 0x62, 0x61, 0x72], -2,
              [ER.NewEvent(eventId, [0x66, 0x6f, 0x6f], 0, 0, [0x00], None)], false)))
  {
    var write := new WriteEventsBuilder();
    write.SetStreamId([0x66, 0x6f, 0x6f, 0x62, 0x61, 0x72]);
    var event := write.NewEvent();
    event.SetEventType([0x66, 0x6f, 0x6f]);
    event.SetData([0x00]);
    event.SetDataContentType(CT.Bytes);
    write := event.Done(eventId);
    assert write.events == [ER.NewEvent(eventId, [0x66, 0x6f, 0x6f], 0, 0, [0x00], None)];
    assert write.eventStreamId == Some([0x66, 0x6f, 0x6f, 0x62, 0x61, 0x72]);
    assert write.expectedVersion == None && write.requireMaster == None;
    p := write.BuildPackage(None, None, correlationId);
  }
}
