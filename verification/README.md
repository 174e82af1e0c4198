# EventStore TCP client protocol, modelled in Dafny

This project models the client side of the EventStore TCP wire protocol, as
implemented by the `eventstore-tcp` Rust crate. It covers these layers:

- **The frame codec.** A frame is a little-endian `u32` length, followed by a
  discriminator byte, a flags byte and a 16-byte correlation id. Credentials
  follow when the authenticated flag is set, and then the message body.
- **Raw messages.** Each discriminator stands for one message. Most bodies are
  protobuf messages. A few messages hold no data, and a few hold opaque bytes.
- **Protobuf bodies.** This covers the fields each message writes and the fold
  that reads them back.
- **Adapted messages.** This typed layer turns result codes into `Result`s,
  wire numbers into stream versions, event numbers and log positions, and
  event-number pairs into ranges.
- **Packages.** A package joins credentials, the correlation id and a message,
  raw or adapted.
- **Request builders.** These fill in requests field by field and consume
  their state on build.

Value conversions are pure functions over datatypes. The codec's reading and
writing through `std::io::Cursor` is modelled by methods on the `Io.Cursor`
class. The builders are classes whose setters update fields in place.
`Codec.FrameBuffer` stands for the `BytesMut` buffer that `Decoder::decode`
drains and `Encoder::encode` fills.

The protobuf layer (quick_protobuf's reader and writer) is modelled concretely:

- varints are LEB128;
- tags are `number << 3 | wire type`;
- `read_bool` is `value != 0`;
- `read_string` checks UTF-8, and `read_bytes` does not.

Unknown fields are skipped. A repeated field appends in arrival order.

## Model

| member | source | states |
|---|---|---|
| Codec.FlagsFromBits | src/codec.rs:15-24 | a flags byte is accepted exactly when it is `None` (0) or `Authenticated` (1), and is kept as is |
| Codec.FlagsFor | src/codec.rs:100 | the flags written are `Authenticated` exactly when credentials are present, and they always parse back |
| Codec.HeaderOf | src/codec.rs:62-89 | the header's discriminator is body[0]; its correlation id is body[2..18]; credentials are read exactly when the flag is 1; an unknown flag is `InvalidFlags`; a body too short for the flags is EOF. With `asWritten` the credentials are those `UsernamePassword::decode` reads as written (src/auth.rs:27-34): two bytes per part, body[19..21] and body[22..24], six bytes in all. Otherwise (the corrected decoder of "## Findings") they are exactly the bytes that encode them |
| Codec.DecodeHeader | src/codec.rs:62-89 | reading through a cursor (`read_u8`, `read_exact`, credentials via the auth decoder as written or corrected) gives exactly `HeaderOf(body, asWritten)` |
| Codec.BodyOf | src/codec.rs:56-60 | a decoded body's header is `HeaderOf(body, asWritten)` and its message carries the body's own discriminator; header errors propagate unchanged |
| Codec.DecodeBody | src/codec.rs:56-60 | the cursor-based decoding agrees with `BodyOf` under the same credential decoder |
| Codec.DecodeFrame | src/codec.rs:30-54 | it needs more bytes (`Ok(None)`) exactly when fewer than 22 are buffered or fewer than 4 + the announced length; otherwise the announced length is at least 18 and fits in the buffer; a decoded package's correlation id is buf[6..22], and its credentials and raw message are those `BodyOf` gives for the announced content; an error is `BodyOf`'s error |
| Codec.Frame | src/codec.rs:91-118 | a frame's length prefix equals the number of bytes that follow it, and every frame is at least 22 bytes |
| Codec.RawOf | src/codec.rs:130-143 | a raw container is encoded as it is; an adapted one is encoded as its `as_raw` form |
| Codec.WriteHeader | src/codec.rs:99-108 | appends the discriminator, the flags, the correlation id and, when present, the credentials' encoding |
| Codec.WriteContent | src/codec.rs:99-110 | appends exactly the frame content: header, credentials and the raw message's encoding |
| Codec.EncodeParts | src/codec.rs:91-118 | writes a zero placeholder, then the content, then seeks back to 0 and patches the placeholder with the content length; the cursor ends at position 4 |
| Codec.EncodePartsWritesFrame | src/codec.rs:91-118 | on an empty cursor, `encode_parts` leaves exactly `Frame(...)` |
| Codec.FrameBuffer.Decode | src/codec.rs:121-128 | returns `DecodeFrame` of the buffer with the credentials read as written, and drains exactly the decoded frame on success; otherwise the buffer is untouched |
| Codec.FrameBuffer.Encode | src/codec.rs:130-143 | appends exactly the package's frame to the buffer |
| Codec.BodyRoundTrip | src/codec.rs:56-118 | the body of an encoded frame decodes to its header fields and its raw message: with the corrected credential decoder always, and as written when there are no credentials or both parts are two bytes long |
| Codec.FrameRoundTrip | src/codec.rs:30-118 | a decodable package, framed and followed by any bytes, decodes back to itself and consumes exactly its frame: with the corrected credential decoder always, and as written when there are no credentials or both parts are two bytes long |
| Codec.AsWrittenFrameRoundTripIff | src/codec.rs:30-118 | as written, a decodable package comes back from its frame if and only if it has no credentials or both of their parts are two bytes long |
| Codec.AsWrittenLosesCredentials | src/codec.rs:251-270 | as written, the authenticated round-trip test's ping sent with "foobar"/"abbacd" decodes with credentials "fo"/"ba" |
| Codec.PackageOf | src/codec.rs:44-53 | a complete frame's content becomes a package exactly when its body decodes, with that body's credentials and message and the id at content[2..18]; otherwise the body's error |
| Codec.PrefixNeedsMore | src/codec.rs:31-33 | every proper prefix of a frame makes the decoder ask for more bytes |
| Codec.DecodeIgnoresTrailing | src/codec.rs:45-53 | bytes after a complete frame do not change what it decodes to |
| Codec.UnknownFlagsRefused | src/codec.rs:67-70 | a complete frame whose flags byte is above 1 is refused with `InvalidFlags` |
| Codec.EncodesPing | src/codec.rs:180-190 | a ping with the test's correlation id encodes to the 22 bytes `12 00 00 00 03 00` followed by the id |
| Codec.DecodesPingWithJunk | src/codec.rs:168-178 | a ping frame that announces 19 bytes, the last of them junk, decodes to the ping |
| Codec.DecodesUnknownDiscriminator | src/codec.rs:192-209 | discriminator 0xff decodes to `Unsupported(0xff, [])` |
| Package.TryAdapt | src/package.rs:49-60 | an adapted container is returned unchanged; a failed conversion hands back the raw message it came from; an unsupported discriminator fails with `UnsupportedDiscriminator` |
| Package.TryAdaptRoundTrip | src/package.rs:37-60 | adapting an adapted container is the identity, and a reversible adapted message (a failed stream read is not one) survives the trip through its raw form |
| Raw.Discriminator | src/raw/mod.rs:262-299 | every discriminator of a variant other than `Unsupported` is a known one |
| Raw.DiscriminatorDeterminesVariant | src/raw/mod.rs:262-299 | two messages other than `Unsupported` share a discriminator if and only if they are the same variant, with the same direction for the read variants |
| Raw.DecodeWriteBody | src/raw/mod.rs:187-191 | the append and delete arms decode into a variant with that discriminator |
| Raw.DecodeReadBody | src/raw/mod.rs:193-204 | the read arms decode into a variant with that discriminator and the direction that the discriminator names |
| Raw.Decode | src/raw/mod.rs:144-213 | a decoded message has the requested discriminator; it is `Unsupported` exactly when the discriminator is unknown; a body that is not protobuf always decodes, to nothing or to the bytes themselves |
| Raw.DecodesWriteEvents | src/raw/mod.rs:187 | discriminator 0x82 decodes exactly what `WriteEvents::from_reader` decodes |
| Raw.DecodesWriteEventsCompleted | src/raw/mod.rs:188 | 0x83 decodes through `WriteEventsCompleted::from_reader` |
| Raw.DecodesDeleteStream | src/raw/mod.rs:190 | 0x8A decodes through `DeleteStream::from_reader` |
| Raw.DecodesDeleteStreamCompleted | src/raw/mod.rs:191 | 0x8B decodes through `DeleteStreamCompleted::from_reader` |
| Raw.DecodesReadEvent | src/raw/mod.rs:193 | 0xB0 decodes through `ReadEvent::from_reader` |
| Raw.DecodesReadEventCompleted | src/raw/mod.rs:194 | 0xB1 decodes through `ReadEventCompleted::from_reader` |
| Raw.DecodesReadStreamEvents | src/raw/mod.rs:196-198 | 0xB2/0xB4 decode a stream read request with the direction they name |
| Raw.DecodesReadStreamEventsCompleted | src/raw/mod.rs:197-199 | 0xB3/0xB5 decode a stream read completion with the direction they name |
| Raw.DecodesReadAllEvents | src/raw/mod.rs:201-203 | 0xB6/0xB8 decode a read-all request with the direction they name |
| Raw.DecodesReadAllEventsCompleted | src/raw/mod.rs:202-204 | 0xB7/0xB9 decode a read-all completion with the direction they name |
| Raw.DecodesNotHandled | src/raw/mod.rs:207 | 0xF1 decodes through `NotHandled::from_reader` |
| Raw.PayloadDeterminesMessage | src/raw/mod.rs:180-212 | a message without a protobuf body is determined by its discriminator and its payload |
| Raw.RoundTrip | src/raw/mod.rs:144-259 | decoding what `encode` wrote, under the message's own discriminator, gives the message back |
| Raw.Encode | src/raw/mod.rs:216-259 | writing through a cursor appends exactly the message's encoding |
| Raw.IntoStr | src/raw/mod.rs:86-103 | a payload converts to a string exactly when it is UTF-8, unchanged; otherwise the bytes are handed back with the UTF-8 error |
| Auth.Encoding | src/auth.rs:40-48 | a length byte, the username, a length byte, the password |
| Auth.Encode | src/auth.rs:40-48 | appends exactly `Encoding(c)` and reports its length |
| Auth.DecodeAsWritten | src/auth.rs:20-38 | as written, every decoded username and password is exactly two bytes long, taken from bytes 1-2 and 4-5, and six bytes are consumed |
| Auth.Decoding | src/auth.rs:20-38 | the corrected decoder of "## Findings" (`vec![0u8; len]`): a decoded credential is well formed, and the bytes consumed are exactly its encoding |
| Auth.Decode | src/auth.rs:20-38 | the cursor-based decoder, as written or corrected, agrees with `DecodeAsWritten` or `Decoding` on success, on the bytes consumed and on error |
| Auth.DecodeRoundTrip | src/auth.rs:20-48 | for the corrected decoder of "## Findings": decoding an encoded credential, followed by anything, gives it back and consumes exactly its encoding |
| Auth.AsWrittenRoundTripIff | src/auth.rs:20-48 | the as-written decoder round-trips a credential exactly when both of its parts are two bytes long |
| Auth.AsWrittenLosesLongCredentials | src/auth.rs:28 | as written, "foobar"/"abbacd" decode as "fo"/"ba" |
| Adapted.RangeFromParts | src/adapted/mod.rs:231-233 | first and last event numbers become the range [first, last + 1) |
| Adapted.RangeToParts | src/adapted/mod.rs:235-239 | a range becomes its first event number and its end minus one |
| Adapted.RangePartsRoundTrip | src/adapted/mod.rs:231-239 | parts to range to parts is the identity |
| Adapted.RangeRoundTrip | src/adapted/mod.rs:231-239 | range to parts to range is the identity for ranges below `i32::MAX` |
| Adapted.OptionalPosition | src/adapted/mod.rs:264-273 | an optional wire position fails exactly when it is present and below -1; otherwise it converts to a well-formed position with the same wire value |
| Adapted.AdaptWriteEventsCompleted | src/adapted/mod.rs:241-286 | a missing result, `InvalidTransaction` and bad positions are errors that keep the message; a failure code becomes the failure of that name; `Success` gives the range and positions read from the message |
| Adapted.WriteEventsCompletedAsRaw | src/adapted/mod.rs:288-300 | a success is written with result `Success` and no message |
| Adapted.WriteEventsFailureAsRaw | src/adapted/mod.rs:302-313 | a failure is written with its failing code |
| Adapted.WriteEventsCompletedRoundTrip | src/adapted/mod.rs:241-300 | a success whose range and positions are well formed converts back to itself |
| Adapted.WriteEventsFailureRoundTrip | src/adapted/mod.rs:241-313 | every failure converts back to itself |
| Adapted.WriteEventsCompletedRawRoundTrip | src/adapted/mod.rs:241-313 | a convertible raw completion in canonical form is what `as_raw` of its conversion gives back |
| Adapted.AdaptReadEventCompleted | src/adapted/mod.rs:324-343 | it fails exactly when the result is missing; it succeeds with the event exactly when the result is `Success`; otherwise it gives the read error for that code and message |
| Adapted.ResolvedIndexedEventAsRaw | src/adapted/mod.rs:345-353 | a read event is written with result `Success` and no error |
| Adapted.ReadEventErrorAsRaw | src/adapted/mod.rs:355-392 | a read error is written with its failing code around an empty sentinel event |
| Adapted.ReadEventCompletedRoundTrip | src/adapted/mod.rs:324-392 | both outcomes of a single-event read convert back to themselves |
| Adapted.ReadEventCompletedRawRoundTrip | src/adapted/mod.rs:324-392 | a raw completion in canonical form is what `as_raw` of its conversion gives back |
| Adapted.NextPage | src/adapted/mod.rs:425-429 | a negative next event number ends the read going backward and is an error going forward; any other value is that exact event number |
| Adapted.ReadStreamPage | src/adapted/mod.rs:425-452 | a page converts exactly when the next number is acceptable and the last event number is non-negative |
| Adapted.AdaptReadStreamEventsCompletedAsWritten | src/adapted/mod.rs:402-452 | as written, when a result is present, the conversion succeeds exactly when the page numbers are valid, even for failed reads |
| Adapted.AdaptReadStreamEventsCompleted | src/adapted/mod.rs:402-452 | the corrected conversion of "## Findings", result code first: a missing result is an error; a failure code gives the read error whatever the page numbers are; `Success` gives the page |
| Adapted.ReadStreamCompletedAsRaw | src/adapted/mod.rs:454-469 | a page is written with result `Success`, no error, and -1 when there is no next page |
| Adapted.ReadStreamErrorAsRaw | src/adapted/mod.rs:471-496 | a failed read is written with its code, no events, and -1 for every number |
| Adapted.AsWrittenRefusesFailedReads | src/adapted/mod.rs:425-496 | as written, the code refuses every failed read that its own `as_raw` produces |
| Adapted.ReadStreamErrorRoundTrip | src/adapted/mod.rs:402-496 | with the result looked at first, every failed read converts back to itself |
| Adapted.CorrectedAgreesWithAsWritten | src/adapted/mod.rs:402-452 | the corrected conversion differs from the code as written only for failed reads |
| Adapted.ReadStreamCompletedRoundTrip | src/adapted/mod.rs:402-469 | a page converts back to itself |
| Adapted.ReadStreamEventsCompletedRawRoundTrip | src/adapted/mod.rs:402-496 | a convertible raw completion in canonical form is what `as_raw` of its conversion gives back |
| Adapted.AdaptReadAllEventsCompleted | src/adapted/mod.rs:506-537 | it fails exactly on a successful page with a position below -1; a failure code gives the read-all error; `Success` gives the page with its positions typed |
| Adapted.ReadAllEventsCompletedKeepsEvents | src/adapted/mod.rs:506-537 | every event of a converted page is the wire event, with the same records and positions |
| Adapted.TryFrom | src/adapted/mod.rs:77-128 | unsupported, delete and not-handled messages are refused with the raw message handed back; dataless messages and requests always convert; bad-request and not-authenticated payloads convert exactly when they are UTF-8; a stream read's completion goes through the conversion as written |
| Adapted.AsRaw | src/adapted/mod.rs:130-159 | `as_raw` yields a known, supported raw variant, never a delete or not-handled one |
| Adapted.AdaptedRoundTrip | src/adapted/mod.rs:77-159 | converting `as_raw`'s output back gives the adapted message again, for every reversible message (a failed stream read is not one) |
| Adapted.FailedReadNotReversible | src/adapted/mod.rs:425-431 | a failed stream read's `as_raw` form is refused by `try_from` with `InvalidStreamVersion(-1)` |
| AdaptedWriteEvents.ToOperationResult | src/adapted/write_events.rs:69-81 | a failure's code is never `Success` or `InvalidTransaction` |
| AdaptedWriteEvents.FailureRoundTrip | src/adapted/write_events.rs:52-81 | the two conversions are inverse bijections between failures and failing codes |
| AdaptedWriteEvents.TransientIffTimeout | src/adapted/write_events.rs:40-50 | a failure is transient exactly when its code is one of the three timeouts |
| AdaptedReadEvent.FromResult | src/adapted/read_event.rs:20-32 | the error is `Error` exactly for code `Error`, and only then carries the message |
| AdaptedReadEvent.ToResult | src/adapted/mod.rs:355-392 | an error's code is never `Success`, and only `Error` has a message |
| AdaptedReadEvent.ErrorRoundTrip | src/adapted/read_event.rs:20-32 | the error survives the trip through its code, and so does every failing code |
| AdaptedReadStream.FromResult | src/adapted/read_stream.rs:43-55 | the error is `Error` exactly for code `Error`, and only then carries the message |
| AdaptedReadStream.ToResult | src/adapted/mod.rs:471-496 | an error's code is never `Success`, and only `Error` has a message |
| AdaptedReadStream.ErrorRoundTrip | src/adapted/read_stream.rs:43-55 | the error survives the trip through its code, and so does every failing code |
| AdaptedReadAll.FromResolvedEvent | src/adapted/read_all.rs:35-44 | records are kept and positions become well-formed log positions with the same wire values |
| AdaptedReadAll.FromResolvedEvents | src/adapted/mod.rs:527 | every wire event is converted, in order |
| AdaptedReadAll.FromResult | src/adapted/read_all.rs:57-67 | the error is `Error` exactly for code `Error`, and only then carries the message |
| AdaptedReadAll.ErrorKeepsCode | src/adapted/read_all.rs:57-67 | converting a failing code to an error keeps the code |
| WriteMessages.WriteEventsRoundTrip | src/client_messages.rs:247-286 | `from_reader` reads back what `write_message` wrote, events in order |
| WriteMessages.WriteEventsAppendsEvents | src/client_messages.rs:255-269 | repeated events are appended in arrival order |
| WriteMessages.WriteEventsLastValueWins | src/client_messages.rs:255-269 | a scalar field sent twice keeps the later value |
| WriteMessages.WriteEventsSkipsUnknown | src/client_messages.rs:255-269 | a field with an undeclared number is skipped |
| WriteMessages.WriteEventsCompletedRoundTrip | src/client_messages.rs:290-337 | optional fields are written only when present and read back as exactly that |
| WriteMessages.DeleteStreamRoundTrip | src/client_messages.rs:341-381 | a delete request reads back as written |
| WriteMessages.DeleteStreamCompletedRoundTrip | src/client_messages.rs:384-424 | a delete completion reads back as written |
| EventRecords.NewEventRoundTrip | src/client_messages.rs:51-99 | a new event reads back as written, metadata only when present |
| EventRecords.EventRecordRoundTrip | src/client_messages.rs:102-166 | an event record reads back as written, optional fields included |
| EventRecords.ResolvedIndexedEventRoundTrip | src/client_messages.rs:169-201 | the event and the optional link, both nested messages, read back as written |
| EventRecords.ResolvedEventRoundTrip | src/client_messages.rs:204-244 | event, link and both positions read back as written |
| ReadMessages.ReadEventRoundTrip | src/client_messages.rs:673-713 | a single-event read request reads back as written |
| ReadMessages.ReadEventCompletedRoundTrip | src/client_messages.rs:716-752 | the nested event and the optional fields read back as written |
| ReadMessages.ReadStreamEventsRoundTrip | src/client_messages.rs:790-834 | a stream read request reads back as written |
| ReadMessages.ReadStreamEventsCompletedAppendsEvents | src/client_messages.rs:848-865 | repeated events are appended in arrival order |
| ReadMessages.ReadStreamEventsCompletedRoundTrip | src/client_messages.rs:837-889 | the events come back in order, and every other field as written |
| ReadMessages.ReadAllEventsRoundTrip | src/client_messages.rs:927-971 | a read-all request reads back as written |
| ReadMessages.ReadAllEventsCompletedOmitsSuccess | src/client_messages.rs:1019-1029 | a `Success` result leaves no field 6 on the wire, and any other result writes one |
| ReadMessages.ReadAllEventsCompletedAppendsEvents | src/client_messages.rs:985-1005 | repeated events are appended in arrival order |
| ReadMessages.ReadAllEventsCompletedRoundTrip | src/client_messages.rs:974-1029 | every result, `Success` included though it is not written, reads back as written |
| ReadMessages.NotHandledRoundTrip | src/client_messages.rs:1890-1922 | a not-handled message reads back as written; its extra information is opaque bytes |
| OperationResults.FromI32 | src/client_messages.rs:34-48 | unknown codes become `Success`; known codes map to the variant with that number |
| OperationResults.RoundTrip | src/client_messages.rs:17-48 | every result survives the trip through its `i32` |
| ReadEventResults.FromI32 | src/client_messages.rs:773-785 | unknown codes become `Success`; known codes map to the variant with that number |
| ReadEventResults.RoundTrip | src/client_messages.rs:758-785 | every result survives the trip through its `i32` |
| ReadStreamResults.FromI32 | src/client_messages.rs:910-922 | unknown codes become `Success`; known codes map to the variant with that number |
| ReadStreamResults.RoundTrip | src/client_messages.rs:895-922 | every result survives the trip through its `i32` |
| ReadAllResults.FromI32 | src/client_messages.rs:1048-1058 | unknown codes become `Success`; known codes map to the variant with that number |
| ReadAllResults.RoundTrip | src/client_messages.rs:1035-1058 | every result survives the trip through its `i32` |
| NotHandledReasons.FromI32 | src/client_messages.rs:1993-2002 | unknown codes become `NotReady`; known codes map to the variant with that number |
| NotHandledReasons.RoundTrip | src/client_messages.rs:1981-2002 | every reason survives the trip through its `i32` |
| StreamVersions.ToI32 | src/stream_version.rs:17-21 | the `i32` of a stream version is non-negative and equals its `u32` |
| StreamVersions.TryFromU32 | src/stream_version.rs:23-33 | accepted exactly below `i32::MAX`; the error's version is negative exactly above `i32::MAX` |
| StreamVersions.TryFromI32 | src/stream_version.rs:35-45 | accepted exactly when non-negative; the error carries the value |
| StreamVersions.FromOpt | src/builder.rs:120-127 | `Some` exactly below `i32::MAX` |
| StreamVersions.FromI32Opt | src/builder.rs:135-144 | `Some` exactly for 0 up to, not including, `i32::MAX` |
| StreamVersions.FromI32 | src/builder.rs:130-132 | the version has the given wire value |
| StreamVersions.I32RoundTrip | src/stream_version.rs:17-45 | every stream version survives the trip through its `i32` |
| StreamVersions.U32RejectsWhatI32Accepts | src/stream_version.rs:23-45 | `i32::MAX` is accepted from `i32` but refused from `u32` |
| StreamVersions.BuilderConstructorsAgree | src/builder.rs:120-144 | the builder constructors agree with the `TryFrom` impls except at `i32::MAX` |
| EventNumbers.FromStreamVersion | src/event_number.rs:16-20 | a stream version becomes `Exact` of it |
| EventNumbers.ToI32 | src/event_number.rs:22-32 | only `Last` is -1; `First` and `Exact(0)` are 0; `Exact` is the version |
| EventNumbers.TryFromI32 | src/adapted/mod.rs:425-431 | accepted exactly when non-negative, as `Exact` with that wire value |
| EventNumbers.WireCollision | src/event_number.rs:22-32 | the wire value tells event numbers apart, except `First` and `Exact(0)` |
| ExpectedVersions.ToI32 | src/expected_version.rs:13-23 | `Any` is -2, `NoStream` is -1, and `Exact` is the version cast `as i32` |
| ExpectedVersions.WireInjectiveBelow2p31 | src/expected_version.rs:13-23 | below 2^31 the wire value tells expected versions apart |
| ExpectedVersions.ExactWrapsOntoSentinels | src/expected_version.rs:20 | `Exact(u32::MAX)` goes on the wire as `NoStream`, and `Exact(u32::MAX - 1)` as `Any` |
| ContentTypes.ToI32 | src/content_type.rs:10-17 | `Json` is 1 and `Bytes` is 0 |
| LogPositions.TryFromI64 | src/log_position.rs:16-27 | accepted exactly from -1 up; 0 is `First` and -1 is `Last`; the wire value is kept |
| LogPositions.TryFromU64 | src/log_position.rs:29-39 | accepted exactly up to `i64::MAX`, never as `Last` |
| LogPositions.I64RoundTrip | src/log_position.rs:16-49 | every wire value from -1 up survives the trip through `LogPosition` |
| LogPositions.PositionRoundTrip | src/log_position.rs:16-49 | a well-formed position survives the trip through `i64`; `Exact(0)` comes back as `First` |
| LogPositions.U64AgreesWithI64 | src/log_position.rs:16-39 | the two conversions agree where both apply |
| LogPositions.LessIsStrictTotalOrder | src/log_position.rs:6-14 | the derived order is a strict total order |
| LogPositions.LessMatchesWire | src/log_position.rs:6-49 | apart from `Last`, the derived order is the order of the wire values; `Last` is greatest |
| Ints.LittleEndianRoundTrip | src/codec.rs:35 | the little-endian length reads back as written |
| Builder.ExpectedVersionToI32 | src/builder.rs:84-94 | `Any` is -2, `NewStream` is -1, and `Exact` is the non-negative stream version |
| Builder.ExpectedVersionWire | src/builder.rs:73-94 | the builder's expected version is told apart on the wire and agrees with the crate-level conversion |
| Builder.SameEventNumberIff | src/builder.rs:169-175 | two event numbers compare equal exactly when they are equal, or are `First` and `Exact(0)` |
| Builder.PackageOf | src/builder.rs:614-620 | the package carries the message and credentials; the given correlation id, or else a fresh one |
| Builder.SimplePackagesAreDataless | src/builder.rs:57-68 | ping and authenticate packages hold the dataless messages |
| Builder.WriteEventsBuilder.SetStreamId | src/builder.rs:260-265 | sets the stream id |
| Builder.WriteEventsBuilder.SetExpectedVersion | src/builder.rs:268-271 | sets the expected version |
| Builder.WriteEventsBuilder.SetRequireMaster | src/builder.rs:277-280 | sets require-master |
| Builder.WriteEventsBuilder.NewEvent | src/builder.rs:283-285 | returns an empty event builder tied to this builder |
| Builder.WriteEventsBuilder.PushEvent | src/builder.rs:287-290 | appends the event |
| Builder.WriteEventsBuilder.BuildCommand | src/builder.rs:292-301 | the command holds the stream id, the expected version (default `Any`), the events in order and require-master (default false); the builder is left empty |
| Builder.WriteEventsBuilder.BuildPackage | src/builder.rs:309-311 | the package holds the command that `BuildCommand` would give |
| Builder.NewEventOf | src/builder.rs:382-398 | event type, data and metadata are kept; a missing id is fresh; a missing content type is 0; a content type is 1 exactly when it is `Json` |
| Builder.NewEventBuilder.SetEventId | src/builder.rs:340-374 | sets the event id |
| Builder.NewEventBuilder.SetEventType | src/builder.rs:340-374 | sets the event type |
| Builder.NewEventBuilder.SetData | src/builder.rs:340-374 | sets the data |
| Builder.NewEventBuilder.SetDataContentType | src/builder.rs:340-374 | sets the data content type |
| Builder.NewEventBuilder.SetMetadata | src/builder.rs:340-374 | sets the metadata |
| Builder.NewEventBuilder.SetMetadataContentType | src/builder.rs:340-374 | sets the metadata content type |
| Builder.NewEventBuilder.Done | src/builder.rs:382-398 | appends `NewEventOf` the fields to the parent's events and returns the parent |
| Builder.NewEventBuilder.Cancel | src/builder.rs:401-403 | returns the parent, whose events are unchanged |
| Builder.ReadEventBuilder.SetStreamId | src/builder.rs:444-449 | sets the stream id |
| Builder.ReadEventBuilder.SetEventNumber | src/builder.rs:452-455 | sets the event number |
| Builder.ReadEventBuilder.SetResolveLinkTos | src/builder.rs:459-462 | sets resolve-link-tos |
| Builder.ReadEventBuilder.SetRequireMaster | src/builder.rs:469-472 | sets require-master |
| Builder.ReadEventBuilder.BuildCommand | src/builder.rs:474-481 | the request holds the stream id, the event number's wire value, resolve (default true) and master (default false); the builder is left empty |
| Builder.ReadEventBuilder.BuildPackage | src/builder.rs:489-491 | the package holds the request that `BuildCommand` would give |
| Builder.ReadStreamEventsBuilder.SetDirection | src/builder.rs:538-541 | sets the direction |
| Builder.ReadStreamEventsBuilder.SetMaxCount | src/builder.rs:546-551 | sets a positive max count |
| Builder.ReadStreamEventsBuilder.SetStreamId | src/builder.rs:556-565 | sets a stream id that is neither empty nor `$all` |
| Builder.ReadStreamEventsBuilder.SetFromEventNumber | src/builder.rs:568-571 | sets the starting event number |
| Builder.ReadStreamEventsBuilder.SetResolveLinkTos | src/builder.rs:575-578 | sets resolve-link-tos |
| Builder.ReadStreamEventsBuilder.SetRequireMaster | src/builder.rs:585-588 | sets require-master |
| Builder.ReadStreamEventsBuilder.BuildCommand | src/builder.rs:590-598 | the request holds the stream id, the start's wire value, max count (default 10), resolve (default true) and master (default false); only the stream id and the start are taken |
| Builder.ReadStreamEventsBuilder.BuildPackage | src/builder.rs:600-611 | the package holds the request in the chosen direction |
| Builder.BuildFoobarWrite | src/builder.rs:622-632 | the unit test's builder chain yields a write to stream "foobar" of one event of type "foo", with `Any`, no master, and the given correlation id |

## Left out

- Networking, tokio and the client (src/client.rs, src/lib.rs service glue) are not part of this model; only the codec's byte handling is.
- The protobuf reader and writer are a concrete LEB128 stand-in for quick_protobuf. Sizes (`get_size`), packed fields and groups are not modelled.
- Hexdump formatting and the `Debug` impls are presentational only.
- Transactions, persistent subscriptions, scavenge and master-info messages are not in this model: they have no discriminator arm in `RawMessage`.
- `EventNumber::try_from(i32)` is called at src/adapted/mod.rs:428 but not defined in src/event_number.rs; the model takes it as `Exact` of `StreamVersion::try_from(i32)`.
- `ResolvedEvent` positions use `.into()` on `i64`, which panics below -1. `AdaptedReadAll.FromResolvedEvent` requires `HasPositions` instead.
- Adapted.AsRaw: `as_raw` is `unimplemented!()` for `NotHandled` and for both read-all outcomes. The model requires `HasRaw`.
- Raw.Decode: returns the protobuf read's `Err` where the source panics instead. The generated `from_reader` returns as soon as a read fails. When that happens before the end of the body, the `assert!(reader.is_eof())` in the `decode!` macro panics. Example: discriminator 0x82 with body `0B 00` (wire type 3) panics in the source, and the model gives `Err(ProtobufWireType(3))`. A read that succeeds always reaches the end, so the assertion holds there.
- Codec.FrameRoundTrip: with the credential decoder as written (`FrameBuffer.Decode`), a package comes back only without credentials or with two-byte parts. `Codec.AsWrittenFrameRoundTripIff` states this exactly. The unrestricted round trip holds for the corrected decoder (see "## Findings").
- Codec.BodyRoundTrip: narrowed in the same way as `FrameRoundTrip`.
- Adapted.AdaptedRoundTrip: `Reversible` excludes failed stream reads. `try_from` refuses their `as_raw` form (see "## Findings" and `Adapted.FailedReadNotReversible`).
- Package.TryAdaptRoundTrip: excludes failed stream reads, through `Reversible`, for the same reason.
- Panics become preconditions:
  - `decode` on an announced length below 18 (`AnnouncesShortFrame`);
  - a builder built without its mandatory fields;
  - a stream id of `$all`;
  - a max count of 0;
  - `range_from_parts` out of range.
- `Uuid::new_v4` becomes a `random` parameter supplied by the caller.
- Codec.EncodeParts: requires the cursor to be at the end of its data. Frames of 4 GiB or more (`Fits`) are excluded, where the source truncates the length with `as u32`.
- Encoding an adapted container goes through `as_raw`. `Encoder::encode` passes `&msg.message` as a `&RawMessage` (src/codec.rs:137); src/package.rs defines no conversion from `MessageContainer` to `RawMessage`.
- The builder's `Message` type from src/lib.rs is modelled as `RawMessage`.
- The contents of `NotHandledInfo` are a placeholder, since no conversion produces it.
- The builder's `EventNumber` reuses `EventNumbers.EventNumber`. Its hand-written `PartialEq` is `Builder.SameEventNumber`.
- UTF-8 validity is the `IsUtf8` predicate over bytes. Strings are byte sequences.
- Lifetimes, `Cow` borrowing and ownership are not modelled; values are copied.

## Findings

| source | as written | input that shows it | evidently intended | confidence | as-written member | corrected member |
|---|---|---|---|---|---|---|
| src/auth.rs:28 | `vec![0u8, len]` makes a two-byte buffer whatever the length byte says, so every username and password is read as exactly two bytes, and the codec's `decode_header` reads credentials this way | credentials "foobar"/"abbacd" decode as "fo"/"ba" | `vec![0u8; len]`, a buffer of `len` bytes | not executed | Auth.AsWrittenLosesLongCredentials | Auth.DecodeRoundTrip |
| src/adapted/mod.rs:425-431 | the next and last event numbers are checked before the result code, so a failed read (its `as_raw` writes -1 for both) is refused with `InvalidStreamVersion(-1)`, also by `try_from` | result `NoStream`, next -1, last -1, direction `Forward` | look at the result code first, so a failed read converts to its error | not executed | Adapted.AsWrittenRefusesFailedReads | Adapted.ReadStreamErrorRoundTrip |
| src/expected_version.rs:20 | `Exact(v)` is sent as `v as i32`, so versions of 2^31 and above wrap onto negative wire values, and `u32::MAX` and `u32::MAX - 1` collide with `NoStream` and `Any` | `Exact(0xFFFF_FFFF)` is sent as -1 | only stream versions (below 2^31) reach the wire, as builder.rs's `ExpectedVersion` does | not executed | ExpectedVersions.ExactWrapsOntoSentinels | Builder.ExpectedVersionWire |

The program-level members keep the code as written: `Codec.FrameBuffer.Decode`
reads credentials two bytes per part, and `Adapted.TryFrom` checks the page
numbers first. The corrected definitions sit beside them, each with its
round trip proved. The codec functions take `asWritten := false`, proved by
`Codec.FrameRoundTrip`. The read conversion is
`Adapted.AdaptReadStreamEventsCompleted`, proved by
`Adapted.ReadStreamErrorRoundTrip`.
