/**
 * The frame codec (src/codec.rs). On the wire a frame is a four-byte
 * little-endian length, then the discriminator, a flags byte, the sixteen
 * bytes of the correlation id, the credentials when the flags say so, and
 * the message body. Decoding takes whole frames off the front of a receive
 * buffer and leaves a partial frame where it is; encoding appends frames.
 */
module Codec {
  import opened Ints
  import opened Wrappers
  import opened Errors
  import Io
  import Auth
  import Raw
  import Adapted
  import P = Package

  /** The `TcpFlags` bits: none, or credentials present. */
  const FLAG_NONE: Byte := 0x00
  const FLAG_AUTHENTICATED: Byte := 0x01

  /** Discriminator, flags and correlation id: the part of a frame every frame has. */
  const HEADER_LEN: nat := 18

  /** The length prefix and a header without credentials: less than this is never decoded. */
  const MIN_BUFFERED: nat := 4 + 1 + 1 + 16

  /** `TcpFlags::from_bits`: refused when a bit other than the authenticated one is set. */
  function FlagsFromBits(bits: Byte): (r: Option<Byte>)
    ensures r.Some? <==> bits == FLAG_NONE || bits == FLAG_AUTHENTICATED
    ensures r.Some? ==> r.value == bits
  {
    if bits / 2 == 0 then Some(bits) else None
  }

  /** The flags `encode_parts` writes: authenticated exactly when credentials are given. */
  function FlagsFor(authentication: Option<Auth.UsernamePassword>): (bits: Byte)
    ensures FlagsFromBits(bits) == Some(bits)
    ensures bits == FLAG_AUTHENTICATED <==> authentication.Some?
  {
    if authentication.Some? then FLAG_AUTHENTICATED else FLAG_NONE
  }

  /** What `decode_header` reads, and the offset of the message body after it. */
  datatype Header = Header(
    discriminator: Byte,
    correlationId: P.Uuid,
    authentication: Option<Auth.UsernamePassword>,
    size: nat)

  /**
   * `decode_header` on a frame without its length prefix: the discriminator,
   * the flags (refused unless only the authenticated bit may be set), the
   * correlation id, and the credentials exactly when that bit is set. With
   * `asWritten` the credentials are read as `UsernamePassword::decode` reads
   * them, two bytes per part; without it, with the corrected decoder.
   */
  function HeaderOf(body: seq<Byte>, asWritten: bool): (r: Result<Header, ErrorKind>)
    ensures r.Ok? ==> HEADER_LEN <= r.value.size <= |body|
    ensures r.Ok? ==> r.value.discriminator == body[0] && r.value.correlationId == body[2..HEADER_LEN]
    ensures r.Ok? ==> (r.value.authentication.Some? <==> body[1] == FLAG_AUTHENTICATED)
    ensures r.Ok? && r.value.authentication.None? ==> r.value.size == HEADER_LEN
    ensures r.Ok? && r.value.authentication.Some? && !asWritten ==>
      body[HEADER_LEN..r.value.size] == Auth.Encoding(r.value.authentication.value)
    ensures r.Ok? && r.value.authentication.Some? && asWritten ==>
      r.value.size == HEADER_LEN + 6
      && r.value.authentication.value.username == body[HEADER_LEN + 1..HEADER_LEN + 3]
      && r.value.authentication.value.password == body[HEADER_LEN + 4..HEADER_LEN + 6]
    ensures |body| >= 2 && FlagsFromBits(body[1]).None? ==> r == Err(InvalidFlags(body[1]))
    ensures |body| < 2 ==> r == Err(UnexpectedEof)
  {
    if |body| < 2 then Err(UnexpectedEof)
    else if FlagsFromBits(body[1]).None? then Err(InvalidFlags(body[1]))
    else if |body| < HEADER_LEN then Err(UnexpectedEof)
    else if body[1] == FLAG_AUTHENTICATED then
      var rest := body[HEADER_LEN..];
      if asWritten then
        var credentials :- Auth.DecodeAsWritten(rest);
        assert rest[1..3] == body[HEADER_LEN + 1..HEADER_LEN + 3];
        assert rest[4..6] == body[HEADER_LEN + 4..HEADER_LEN + 6];
        Ok(Header(body[0], body[2..HEADER_LEN], Some(credentials.0), HEADER_LEN + credentials.1))
      else
        var credentials :- Auth.Decoding(rest);
        assert rest[..credentials.1] == body[HEADER_LEN..HEADER_LEN + credentials.1];
        Ok(Header(body[0], body[2..HEADER_LEN], Some(credentials.0), HEADER_LEN + credentials.1))
    else
      Ok(Header(body[0], body[2..HEADER_LEN], None, HEADER_LEN))
  }

  /** `decode_header`, reading through a cursor over the frame. */
  method DecodeHeader(body: seq<Byte>, asWritten: bool) returns (r: Result<Header, ErrorKind>)
    ensures r == HeaderOf(body, asWritten)
  {
    var cursor := new Io.Cursor(body);
    var discriminator :- cursor.ReadU8();
    var flags :- cursor.ReadU8();
    if FlagsFromBits(flags).None? {
      return Err(InvalidFlags(flags));
    }
    var correlationId :- cursor.ReadExact(16);
    var authentication := None;
    if flags == FLAG_AUTHENTICATED {
      assert cursor.Remaining() == body[HEADER_LEN..];
      var credentials :- Auth.Decode(cursor, asWritten);
      authentication := Some(credentials);
    }
    r := Ok(Header(discriminator, correlationId, authentication, cursor.pos));
  }

  /** `decode_body`: the header, then the message decoded under its discriminator from the rest. */
  function BodyOf(body: seq<Byte>, asWritten: bool): (r: Result<(Header, Raw.RawMessage), ErrorKind>)
    ensures r.Ok? ==> HeaderOf(body, asWritten) == Ok(r.value.0)
    ensures r.Ok? ==> Raw.Discriminator(r.value.1) == body[0]
    ensures HeaderOf(body, asWritten).Err? ==> r == Err(HeaderOf(body, asWritten).error)
  {
    var header :- HeaderOf(body, asWritten);
    var message :- Raw.Decode(header.discriminator, body[header.size..]);
    Ok((header, message))
  }

  method DecodeBody(body: seq<Byte>, asWritten: bool) returns (r: Result<(Header, Raw.RawMessage), ErrorKind>)
    ensures r == BodyOf(body, asWritten)
  {
    var header :- DecodeHeader(body, asWritten);
    var message :- Raw.Decode(header.discriminator, body[header.size..]);
    r := Ok((header, message));
  }

  /** The package a complete frame's content (after its prefix) decodes to. */
  function PackageOf(content: seq<Byte>, asWritten: bool): (r: Result<Option<P.Package>, ErrorKind>)
    requires |content| >= HEADER_LEN
    ensures r.Ok? <==> BodyOf(content, asWritten).Ok?
    ensures r.Err? ==> r.error == BodyOf(content, asWritten).error
    ensures r.Ok? ==>
      r.value.Some? && r.value.value.message == P.Raw(BodyOf(content, asWritten).value.1)
      && r.value.value.authentication == BodyOf(content, asWritten).value.0.authentication
      && r.value.value.correlationId == content[2..HEADER_LEN]
  {
    var body := BodyOf(content, asWritten);
    if body.Err? then Err(body.error)
    else Ok(Some(P.Package(body.value.0.authentication, body.value.0.correlationId, P.Raw(body.value.1))))
  }

  /** A buffered frame that announces fewer bytes than a header: `decode_inner` panics. */
  predicate AnnouncesShortFrame(buf: seq<Byte>) {
    |buf| >= MIN_BUFFERED && LeToU32(buf) < HEADER_LEN
  }

  /**
   * `decode_inner` on the buffered bytes: nothing until the whole frame the
   * prefix announces is there, then the decoded package (its message raw).
   * A decoded frame takes exactly four plus the announced length bytes.
   */
  function DecodeFrame(buf: seq<Byte>, asWritten: bool): (r: Result<Option<P.Package>, ErrorKind>)
    requires !AnnouncesShortFrame(buf)
    ensures r == Ok(None) <==> |buf| < MIN_BUFFERED || |buf| < 4 + LeToU32(buf)
    ensures r != Ok(None) ==> HEADER_LEN <= LeToU32(buf) && 4 + LeToU32(buf) <= |buf|
    ensures r.Ok? && r.value.Some? ==> r.value.value.message.Raw?
    ensures r.Ok? && r.value.Some? ==>
      var body := BodyOf(buf[4..4 + LeToU32(buf)], asWritten);
      body.Ok?
      && r.value.value.correlationId == buf[6..4 + HEADER_LEN]
      && r.value.value.authentication == body.value.0.authentication
      && r.value.value.message.raw == body.value.1
    ensures r.Err? ==>
      BodyOf(buf[4..4 + LeToU32(buf)], asWritten).Err?
      && r.error == BodyOf(buf[4..4 + LeToU32(buf)], asWritten).error
  {
    if |buf| < MIN_BUFFERED then Ok(None)
    else
      var len := LeToU32(buf) as nat;
      if |buf| < 4 + len then Ok(None)
      else
        var content := buf[4..4 + len];
        assert content[2..HEADER_LEN] == buf[6..4 + HEADER_LEN] by {
          assert HEADER_LEN <= len;
          assert forall i | 0 <= i < 16 :: content[2..HEADER_LEN][i] == buf[6 + i];
        }
        PackageOf(content, asWritten)
  }

  /** The credential bytes of a frame: present exactly when the flags say so. */
  function CredentialBytes(authentication: Option<Auth.UsernamePassword>): seq<Byte> {
    if authentication.Some? then Auth.Encoding(authentication.value) else []
  }

  /** A frame after its length prefix, from its parts. */
  function Content(discriminator: Byte, flags: Byte, correlationId: P.Uuid, credentials: seq<Byte>,
                   body: seq<Byte>): (r: seq<Byte>)
    ensures |r| == HEADER_LEN + |credentials| + |body|
  {
    [discriminator, flags] + correlationId + credentials + body
  }

  /**
   * The bytes of a frame after its length prefix: discriminator, flags,
   * correlation id, the credentials when present, and the message body.
   */
  function FrameContent(correlationId: P.Uuid, authentication: Option<Auth.UsernamePassword>, raw: Raw.RawMessage): (r: seq<Byte>)
    ensures |r| >= HEADER_LEN
  {
    Content(Raw.Discriminator(raw), FlagsFor(authentication), correlationId,
            CredentialBytes(authentication), Raw.Encoding(raw))
  }

  /** The end position `encode_parts` reaches still fits the `u32` it is cast to. */
  predicate Fits(correlationId: P.Uuid, authentication: Option<Auth.UsernamePassword>, raw: Raw.RawMessage) {
    4 + |FrameContent(correlationId, authentication, raw)| < U32_LIMIT
  }

  /** A whole frame: its prefix announces exactly the bytes that follow it. */
  function Frame(correlationId: P.Uuid, authentication: Option<Auth.UsernamePassword>, raw: Raw.RawMessage): (r: seq<Byte>)
    requires Fits(correlationId, authentication, raw)
    ensures |r| >= MIN_BUFFERED && LeToU32(r) == |r| - 4
  {
    var content := FrameContent(correlationId, authentication, raw);
    LittleEndianRoundTrip(|content|, content);
    U32ToLe(|content|) + content
  }

  /** The raw message a container is sent as: an adapted one through `as_raw`. */
  function RawOf(c: P.MessageContainer): (r: Raw.RawMessage)
    requires c.Adapted? ==> Adapted.HasRaw(c.adapted)
    ensures c.Raw? ==> r == c.raw
    ensures c.Adapted? ==> r == Adapted.AsRaw(c.adapted)
  {
    match c
    case Raw(m) => m
    case Adapted(a) => Adapted.AsRaw(a)
  }

  /** A package the encoder can send. */
  predicate Sendable(p: P.Package) {
    (p.message.Adapted? ==> Adapted.HasRaw(p.message.adapted))
    && Fits(p.correlationId, p.authentication, RawOf(p.message))
  }

  /** The writes of `encode_parts` from the discriminator to the credentials. */
  method WriteHeader(w: Io.Cursor, discriminator: Byte, correlationId: P.Uuid,
                     authentication: Option<Auth.UsernamePassword>)
    requires w.Valid() && w.pos == |w.data|
    modifies w
    ensures w.Valid() && w.pos == |w.data|
    ensures w.data == old(w.data) + [discriminator, FlagsFor(authentication)] + correlationId
                      + CredentialBytes(authentication)
  {
    var flags := FLAG_NONE;
    if authentication.Some? {
      flags := FLAG_AUTHENTICATED;
    }
    w.WriteU8(discriminator);
    w.WriteU8(flags);
    w.WriteAll(correlationId);
    if flags == FLAG_AUTHENTICATED {
      var _ := Auth.Encode(authentication.value, w);
    }
  }

  /** The writes of `encode_parts` between the placeholder and the length: the frame content. */
  method WriteContent(w: Io.Cursor, correlationId: P.Uuid, authentication: Option<Auth.UsernamePassword>,
                      raw: Raw.RawMessage)
    requires w.Valid() && w.pos == |w.data|
    modifies w
    ensures w.Valid() && w.pos == |w.data|
    ensures w.data == old(w.data) + FrameContent(correlationId, authentication, raw)
  {
    ghost var start := w.data;
    WriteHeader(w, Raw.Discriminator(raw), correlationId, authentication);
    Raw.Encode(raw, w);
    ContentAppends(start, Raw.Discriminator(raw), FlagsFor(authentication), correlationId,
                   CredentialBytes(authentication), Raw.Encoding(raw));
  }

  lemma ContentAppends(start: seq<Byte>, discriminator: Byte, flags: Byte, correlationId: P.Uuid,
                       credentials: seq<Byte>, body: seq<Byte>)
    ensures start + [discriminator, flags] + correlationId + credentials + body
            == start + Content(discriminator, flags, correlationId, credentials, body)
  {
  }

  /**
   * `encode_parts` on a cursor standing at the end of its buffer: a zero
   * length placeholder, the frame content, then back to the start to write
   * the length, which counts everything written from offset four on.
   */
  method EncodeParts(w: Io.Cursor, correlationId: P.Uuid, authentication: Option<Auth.UsernamePassword>,
                     raw: Raw.RawMessage)
    requires w.Valid() && w.pos == |w.data|
    requires |w.data| + 4 + |FrameContent(correlationId, authentication, raw)| < U32_LIMIT
    modifies w
    ensures w.Valid() && w.pos == 4
    ensures var content := FrameContent(correlationId, authentication, raw);
      w.data == Io.Overwrite(old(w.data) + U32ToLe(0) + content, 0, U32ToLe(|old(w.data)| + |content|))
  {
    w.WriteU32Le(0);
    WriteContent(w, correlationId, authentication, raw);
    var atEnd := w.pos;
    var len := atEnd - 4;
    w.SetPosition(0);
    w.WriteU32Le(len);
  }

  /** On the fresh cursor `encode` gives it, `encode_parts` writes exactly one frame. */
  lemma EncodePartsWritesFrame(correlationId: P.Uuid, authentication: Option<Auth.UsernamePassword>,
                               raw: Raw.RawMessage)
    requires Fits(correlationId, authentication, raw)
    ensures var content := FrameContent(correlationId, authentication, raw);
      Io.Overwrite([] + U32ToLe(0) + content, 0, U32ToLe(|content|)) == Frame(correlationId, authentication, raw)
  {
    var content := FrameContent(correlationId, authentication, raw);
    var written := Io.Overwrite([] + U32ToLe(0) + content, 0, U32ToLe(|content|));
    assert written[4..] == content;
    assert written == written[..4] + written[4..];
  }

  /** The buffer the codec decodes frames from and encodes frames into (`BytesMut`). */
  class FrameBuffer {
    var bytes: seq<Byte>

    constructor (bytes: seq<Byte>)
      ensures this.bytes == bytes
    {
      this.bytes := bytes;
    }

    /**
     * `decode` (`decode_inner`): the next package, or nothing while the
     * frame is incomplete. Only a decoded frame is taken off the buffer.
     * Credentials are read as the source reads them.
     */
    method Decode() returns (r: Result<Option<P.Package>, ErrorKind>)
      requires !AnnouncesShortFrame(bytes)
      modifies this
      ensures r == DecodeFrame(old(bytes), true)
      ensures bytes == if r.Ok? && r.value.Some? then old(bytes)[4 + LeToU32(old(bytes))..] else old(bytes)
    {
      if |bytes| < MIN_BUFFERED {
        return Ok(None);
      }
      var prefix := new Io.Cursor(bytes[0..4]);
      var read := prefix.ReadU32Le();
      var len := read.value;
      assert len == LeToU32(bytes);
      if |bytes| < len as nat + 4 {
        return Ok(None);
      }
      var body :- DecodeBody(bytes[4..4 + len], true);
      bytes := bytes[4 + len..];
      r := Ok(Some(P.Package(body.0.authentication, body.0.correlationId, P.Raw(body.1))));
    }

    /** `encode`: the package's frame, appended to the buffer. */
    method Encode(p: P.Package)
      requires Sendable(p)
      modifies this
      ensures bytes == old(bytes) + Frame(p.correlationId, p.authentication, RawOf(p.message))
    {
      var cursor := new Io.Cursor([]);
      EncodeParts(cursor, p.correlationId, p.authentication, RawOf(p.message));
      EncodePartsWritesFrame(p.correlationId, p.authentication, RawOf(p.message));
      bytes := bytes + cursor.data;
    }
  }

  /** A package whose frame decodes back to it. */
  predicate Decodable(p: P.Package) {
    p.message.Raw? && Raw.Encodable(p.message.raw)
    && (p.authentication.Some? ==>
          Auth.WellFormed(p.authentication.value) && Auth.Encodable(p.authentication.value))
    && Fits(p.correlationId, p.authentication, p.message.raw)
  }

  /**
   * Credentials the decoder reads back: well-formed, short enough for their
   * length bytes, and, for the decoder as written, two bytes per part.
   */
  predicate ReadsBack(authentication: Option<Auth.UsernamePassword>, asWritten: bool) {
    authentication.Some? ==>
      Auth.WellFormed(authentication.value) && Auth.Encodable(authentication.value)
      && (asWritten ==> Auth.TwoByteParts(authentication.value))
  }

  /** The header of a frame's content reads back the id and credentials it was written with. */
  lemma HeaderReads(discriminator: Byte, correlationId: P.Uuid, authentication: Option<Auth.UsernamePassword>,
                    body: seq<Byte>, asWritten: bool)
    requires ReadsBack(authentication, asWritten)
    ensures var content := Content(discriminator, FlagsFor(authentication), correlationId,
                                   CredentialBytes(authentication), body);
      var size := HEADER_LEN + |CredentialBytes(authentication)|;
      HeaderOf(content, asWritten) == Ok(Header(discriminator, correlationId, authentication, size))
      && content[size..] == body
  {
    var credentials := CredentialBytes(authentication);
    var content := Content(discriminator, FlagsFor(authentication), correlationId, credentials, body);
    assert content[2..HEADER_LEN] == correlationId;
    assert content[HEADER_LEN..] == credentials + body;
    if authentication.Some? {
      Auth.DecodeRoundTrip(authentication.value, body);
      if asWritten {
        Auth.AsWrittenRoundTripIff(authentication.value, body);
      }
    }
  }

  /** The content of a frame decodes to the header and message it was written from. */
  lemma BodyRoundTrip(correlationId: P.Uuid, authentication: Option<Auth.UsernamePassword>,
                      raw: Raw.RawMessage, asWritten: bool)
    requires Raw.Encodable(raw)
    requires ReadsBack(authentication, asWritten)
    ensures var content := FrameContent(correlationId, authentication, raw);
      BodyOf(content, asWritten) == Ok((Header(Raw.Discriminator(raw), correlationId, authentication,
                                               |content| - |Raw.Encoding(raw)|), raw))
  {
    var content := FrameContent(correlationId, authentication, raw);
    var header := Header(Raw.Discriminator(raw), correlationId, authentication, |content| - |Raw.Encoding(raw)|);
    HeaderReads(Raw.Discriminator(raw), correlationId, authentication, Raw.Encoding(raw), asWritten);
    Raw.RoundTrip(raw);
    BodyReads(content, header, raw, asWritten);
  }

  /** A content whose header reads back and whose body is a message's encoding decodes to both. */
  lemma BodyReads(content: seq<Byte>, header: Header, raw: Raw.RawMessage, asWritten: bool)
    requires HeaderOf(content, asWritten) == Ok(header)
    requires header.discriminator == Raw.Discriminator(raw)
    requires content[header.size..] == Raw.Encoding(raw)
    requires Raw.Decode(Raw.Discriminator(raw), Raw.Encoding(raw)) == Ok(raw)
    ensures BodyOf(content, asWritten) == Ok((header, raw))
  {
  }

  /**
   * Decoding what `encode` appended gives the package back and takes exactly
   * its frame off the buffer, whatever follows: always with the corrected
   * credential decoder, and as written when the credentials' parts are two
   * bytes long.
   */
  lemma FrameRoundTrip(p: P.Package, rest: seq<Byte>, asWritten: bool)
    requires Decodable(p) && ReadsBack(p.authentication, asWritten)
    ensures var frame := Frame(p.correlationId, p.authentication, p.message.raw);
      !AnnouncesShortFrame(frame + rest)
      && DecodeFrame(frame + rest, asWritten) == Ok(Some(p))
      && 4 + LeToU32(frame + rest) == |frame|
  {
    var content := FrameContent(p.correlationId, p.authentication, p.message.raw);
    PrefixAnnounces(content, rest);
    BodyRoundTrip(p.correlationId, p.authentication, p.message.raw, asWritten);
    DecodesContent(U32ToLe(|content|) + content + rest, content, p, asWritten);
  }

  /**
   * As written, the codec gives a package back if and only if it carries no
   * credentials or credentials whose parts are both two bytes long.
   */
  lemma AsWrittenFrameRoundTripIff(p: P.Package, rest: seq<Byte>)
    requires Decodable(p)
    ensures var frame := Frame(p.correlationId, p.authentication, p.message.raw);
      !AnnouncesShortFrame(frame + rest)
      && (DecodeFrame(frame + rest, true) == Ok(Some(p))
          <==> p.authentication.None? || Auth.TwoByteParts(p.authentication.value))
  {
    var content := FrameContent(p.correlationId, p.authentication, p.message.raw);
    PrefixAnnounces(content, rest);
    if p.authentication.None? || Auth.TwoByteParts(p.authentication.value) {
      FrameRoundTrip(p, rest, true);
    }
  }

  /**
   * The codec's authenticated round trip as written: a ping sent with
   * "foobar" and "abbacd" comes back with "fo" and "ba".
   */
  lemma AsWrittenLosesCredentials(id: P.Uuid, rest: seq<Byte>)
    ensures var foobar := [0x66, 0x6f, 0x6f, 0x62, 0x61, 0x72];
      var abbacd := [0x61, 0x62, 0x62, 0x61, 0x63, 0x64];
      var sent := Some(Auth.UsernamePassword(foobar, abbacd));
      Fits(id, sent, Raw.Ping)
      && !AnnouncesShortFrame(Frame(id, sent, Raw.Ping) + rest)
      && DecodeFrame(Frame(id, sent, Raw.Ping) + rest, true)
         == Ok(Some(P.Package(Some(Auth.UsernamePassword([0x66, 0x6f], [0x62, 0x61])), id, P.Raw(Raw.Ping))))
  {
    var foobar: seq<Byte> := [0x66, 0x6f, 0x6f, 0x62, 0x61, 0x72];
    var abbacd: seq<Byte> := [0x61, 0x62, 0x62, 0x61, 0x63, 0x64];
    var sent := Some(Auth.UsernamePassword(foobar, abbacd));
    var content := FrameContent(id, sent, Raw.Ping);
    assert |content| == 32;
    PrefixAnnounces(content, rest);
    var credentials := Auth.Encoding(sent.value);
    assert content == [0x03, FLAG_AUTHENTICATED] + id + credentials;
    assert content[HEADER_LEN..] == credentials;
    Auth.AsWrittenLosesLongCredentials();
    assert content[2..HEADER_LEN] == id;
    assert Raw.Decode(0x03, content[HEADER_LEN + 6..]) == Ok(Raw.Ping);
  }

  /** Behind its length prefix, the content sits where the prefix says, whatever follows. */
  lemma PrefixAnnounces(content: seq<Byte>, rest: seq<Byte>)
    requires |content| < U32_LIMIT
    ensures var buf := U32ToLe(|content|) + content + rest;
      LeToU32(buf) == |content| && buf[4..4 + |content|] == content
  {
    LittleEndianRoundTrip(|content|, content + rest);
    assert U32ToLe(|content|) + content + rest == U32ToLe(|content|) + (content + rest);
  }

  /** A buffer that starts with a prefix announcing `content`, and then `content`, decodes it. */
  lemma DecodesContent(buf: seq<Byte>, content: seq<Byte>, p: P.Package, asWritten: bool)
    requires |buf| >= 4 + |content| && |content| >= HEADER_LEN && LeToU32(buf) == |content|
    requires buf[4..4 + |content|] == content
    requires p.message.Raw?
    requires BodyOf(content, asWritten).Ok? && BodyOf(content, asWritten).value.1 == p.message.raw
    requires BodyOf(content, asWritten).value.0.authentication == p.authentication
    requires BodyOf(content, asWritten).value.0.correlationId == p.correlationId
    ensures !AnnouncesShortFrame(buf) && DecodeFrame(buf, asWritten) == Ok(Some(p))
  {
  }

  /** Every proper prefix of a frame is incomplete: nothing is decoded and nothing consumed. */
  lemma PrefixNeedsMore(p: P.Package, k: nat, asWritten: bool)
    requires Decodable(p)
    requires k < |Frame(p.correlationId, p.authentication, p.message.raw)|
    ensures var frame := Frame(p.correlationId, p.authentication, p.message.raw);
      !AnnouncesShortFrame(frame[..k]) && DecodeFrame(frame[..k], asWritten) == Ok(None)
  {
    var frame := Frame(p.correlationId, p.authentication, p.message.raw);
    if k >= 4 {
      assert LeToU32(frame[..k]) == LeToU32(frame);
    }
  }

  /**
   * Bytes after a complete frame do not change what is decoded from it, or
   * which error it gives.
   */
  lemma DecodeIgnoresTrailing(buf: seq<Byte>, extra: seq<Byte>, asWritten: bool)
    requires !AnnouncesShortFrame(buf) && DecodeFrame(buf, asWritten) != Ok(None)
    ensures !AnnouncesShortFrame(buf + extra) && DecodeFrame(buf + extra, asWritten) == DecodeFrame(buf, asWritten)
  {
    var len := LeToU32(buf) as nat;
    var longer := buf + extra;
    assert longer[0] == buf[0] && longer[1] == buf[1] && longer[2] == buf[2] && longer[3] == buf[3];
    assert LeToU32(longer) == len;
    assert longer[4..4 + len] == buf[4..4 + len];
  }

  /** A complete frame whose flags set an unknown bit is refused with those flags. */
  lemma UnknownFlagsRefused(buf: seq<Byte>, asWritten: bool)
    requires |buf| >= MIN_BUFFERED && HEADER_LEN <= LeToU32(buf) && 4 + LeToU32(buf) <= |buf|
    requires buf[5] > FLAG_AUTHENTICATED
    ensures !AnnouncesShortFrame(buf) && DecodeFrame(buf, asWritten) == Err(InvalidFlags(buf[5]))
  {
    var body := buf[4..4 + LeToU32(buf)];
    assert body[1] == buf[5];
  }

  /** The correlation id of the codec's ping frames, 7b50a1b0-34b9-224e-8f9d-708c394fab2d. */
  const PING_ID: P.Uuid :=
    [0x7b, 0x50, 0xa1, 0xb0, 0x34, 0xb9, 0x22, 0x4e, 0x8f, 0x9d, 0x70, 0x8c, 0x39, 0x4f, 0xab, 0x2d]

  /** A ping frame without credentials is the eighteen bytes of its header after the prefix. */
  lemma EncodesPing()
    ensures Fits(PING_ID, None, Raw.Ping)
    ensures Frame(PING_ID, None, Raw.Ping) == [0x12, 0x00, 0x00, 0x00, 0x03, 0x00] + PING_ID
  {
    assert FrameContent(PING_ID, None, Raw.Ping) == [0x03, 0x00] + PING_ID;
  }

  /**
   * A ping frame that announces one byte more than its header, and carries
   * it, still decodes to the ping: a data-less message ignores its body.
   */
  lemma DecodesPingWithJunk()
    ensures var buf := [0x13, 0x00, 0x00, 0x00, 0x03, 0x00] + PING_ID + [0x00];
      !AnnouncesShortFrame(buf) && DecodeFrame(buf, true) == Ok(Some(P.Package(None, PING_ID, P.Raw(Raw.Ping))))
  {
    var buf := [0x13, 0x00, 0x00, 0x00, 0x03, 0x00] + PING_ID + [0x00];
    assert LeToU32(buf) == 0x13;
    assert buf[4..4 + 0x13] == [0x03, 0x00] + PING_ID + [0x00];
  }

  /** An unknown discriminator decodes to `Unsupported` with its (here empty) body. */
  lemma DecodesUnknownDiscriminator()
    ensures var buf := [0x12, 0x00, 0x00, 0x00, 0xff, 0x00] + PING_ID;
      !AnnouncesShortFrame(buf)
      && DecodeFrame(buf, true) == Ok(Some(P.Package(None, PING_ID, P.Raw(Raw.Unsupported(0xff, [])))))
  {
    var buf := [0x12, 0x00, 0x00, 0x00, 0xff, 0x00] + PING_ID;
    assert LeToU32(buf) == 0x12;
    var body := buf[4..4 + 0x12];
    assert body == [0xff, 0x00] + PING_ID;
    assert body[2..HEADER_LEN] == PING_ID;
    assert body[HEADER_LEN..] == [];
    assert Raw.Decode(0xff, []) == Ok(Raw.Unsupported(0xff, []));
  }
}
