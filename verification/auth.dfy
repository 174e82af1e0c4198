/**
 * Credentials carried in an authenticated frame (src/auth.rs): a username
 * and a password, each written as a one-byte length and its UTF-8 bytes.
 */
module Auth {
  import opened Ints
  import opened Wrappers
  import opened Errors
  import opened Utf8
  import Io

  /** Rust `str`s are always well-formed UTF-8; `WellFormed` says so of the model's byte strings. */
  datatype UsernamePassword = UsernamePassword(username: seq<Byte>, password: seq<Byte>)

  predicate WellFormed(c: UsernamePassword) {
    IsUtf8(c.username) && IsUtf8(c.password)
  }

  /** Both lengths fit the one-byte length prefix (the source leaves this as a TODO). */
  predicate Encodable(c: UsernamePassword) {
    |c.username| < 0x100 && |c.password| < 0x100
  }

  /** The bytes `encode` writes; a length is truncated `as u8`. */
  function Encoding(c: UsernamePassword): (r: seq<Byte>)
    ensures |r| == 1 + |c.username| + 1 + |c.password|
    ensures r[0] == |c.username| % 0x100 && r[1 + |c.username|] == |c.password| % 0x100
  {
    [AsU8(|c.username|)] + c.username + [AsU8(|c.password|)] + c.password
  }

  /** `encode`: appends the credentials to the writer and returns the number of bytes written. */
  method Encode(c: UsernamePassword, w: Io.Cursor) returns (n: nat)
    requires w.Valid() && w.pos == |w.data|
    modifies w
    ensures w.Valid() && w.data == old(w.data) + Encoding(c) && w.pos == |w.data|
    ensures n == 1 + |c.username| + 1 + |c.password|
  {
    w.WriteU8(AsU8(|c.username|));
    w.WriteAll(c.username);
    w.WriteU8(AsU8(|c.password|));
    w.WriteAll(c.password);
    n := 1 + |c.username| + 1 + |c.password|;
  }

  /**
   * One length-prefixed string read from `s` at `at`, with a buffer of
   * `width(len)` bytes: a missing byte is `UnexpectedEof`, bytes that are not
   * UTF-8 are `InvalidData`. Returns the string and the offset after it.
   */
  function ReadField(s: seq<Byte>, at: nat, asWritten: bool): (r: Result<(seq<Byte>, nat), ErrorKind>)
    requires at <= |s|
    ensures r.Ok? ==> at < r.value.1 <= |s| && r.value.0 == s[at + 1..r.value.1]
    ensures r.Ok? ==> IsUtf8(r.value.0)
    ensures r.Ok? ==> |r.value.0| == if asWritten then 2 else s[at]
  {
    if at == |s| then Err(UnexpectedEof)
    else
      var width := if asWritten then 2 else s[at];
      if at + 1 + width > |s| then Err(UnexpectedEof)
      else
        var bytes := s[at + 1..at + 1 + width];
        if IsUtf8(bytes) then Ok((bytes, at + 1 + width)) else Err(InvalidData)
  }

  /**
   * `decode` as the source writes it: `vec![0u8, len]` is a two-byte vector,
   * so both fields are read into two-byte buffers whatever their length says.
   * Returns the credentials and the number of bytes consumed.
   */
  function DecodeAsWritten(s: seq<Byte>): (r: Result<(UsernamePassword, nat), ErrorKind>)
    ensures r.Ok? ==> |r.value.0.username| == 2 && |r.value.0.password| == 2
    ensures r.Ok? ==> r.value.1 == 6 <= |s|
    ensures r.Ok? ==> r.value.0.username == s[1..3] && r.value.0.password == s[4..6]
  {
    var u :- ReadField(s, 0, true);
    var p :- ReadField(s, u.1, true);
    Ok((UsernamePassword(u.0, p.0), p.1))
  }

  /** `decode` with `vec![0u8; len]`, the buffer the length byte asks for. */
  function Decoding(s: seq<Byte>): (r: Result<(UsernamePassword, nat), ErrorKind>)
    ensures r.Ok? ==> WellFormed(r.value.0) && Encodable(r.value.0) && r.value.1 <= |s|
    ensures r.Ok? ==> s[..r.value.1] == Encoding(r.value.0)
  {
    var u :- ReadField(s, 0, false);
    var p :- ReadField(s, u.1, false);
    Ok((UsernamePassword(u.0, p.0), p.1))
  }

  /** Both parts are two bytes long: the credentials the decoder as written reads back. */
  predicate TwoByteParts(c: UsernamePassword) {
    |c.username| == 2 && |c.password| == 2
  }

  /** The decoder as written, or the corrected one. */
  function Decoder(s: seq<Byte>, asWritten: bool): Result<(UsernamePassword, nat), ErrorKind> {
    if asWritten then DecodeAsWritten(s) else Decoding(s)
  }

  /**
   * One `read_u8` then `read_exact` into the buffer (two bytes as written,
   * as many as the length says when corrected), then the UTF-8 check:
   * `ReadField` on the bytes `s` the cursor held from `start`.
   */
  method ReadString(r: Io.Cursor, ghost s: seq<Byte>, ghost start: nat, ghost at: nat, asWritten: bool)
    returns (f: Result<seq<Byte>, ErrorKind>)
    requires r.Valid() && start <= |r.data| && r.data[start..] == s && r.pos == start + at && at <= |s|
    modifies r`pos
    ensures r.Valid()
    ensures f.Ok? <==> ReadField(s, at, asWritten).Ok?
    ensures f.Ok? ==> f.value == ReadField(s, at, asWritten).value.0
                      && r.pos == start + ReadField(s, at, asWritten).value.1
    ensures f.Err? ==> f.error == ReadField(s, at, asWritten).error
  {
    var len :- r.ReadU8();
    assert s[at] == len;
    var width: nat := if asWritten then 2 else len as nat;
    var bytes :- r.ReadExact(width);
    assert bytes == s[at + 1..at + 1 + width];
    if !IsUtf8(bytes) {
      return Err(InvalidData);
    }
    f := Ok(bytes);
  }

  /** `decode` (as written, or corrected) through a cursor, which ends just past the credentials. */
  method Decode(r: Io.Cursor, asWritten: bool) returns (c: Result<UsernamePassword, ErrorKind>)
    requires r.Valid()
    modifies r`pos
    ensures r.Valid()
    ensures Decoder(old(r.Remaining()), asWritten).Ok? <==> c.Ok?
    ensures c.Ok? ==> c.value == Decoder(old(r.Remaining()), asWritten).value.0
                      && r.pos == old(r.pos) + Decoder(old(r.Remaining()), asWritten).value.1
    ensures c.Err? ==> c.error == Decoder(old(r.Remaining()), asWritten).error
  {
    ghost var s := r.Remaining();
    ghost var start := r.pos;
    var username :- ReadString(r, s, start, 0, asWritten);
    var password :- ReadString(r, s, start, r.pos - start, asWritten);
    c := Ok(UsernamePassword(username, password));
  }

  /** The corrected decoder reads back exactly what `encode` wrote, whatever follows it. */
  lemma DecodeRoundTrip(c: UsernamePassword, rest: seq<Byte>)
    requires WellFormed(c) && Encodable(c)
    ensures Decoding(Encoding(c) + rest) == Ok((c, |Encoding(c)|))
  {
    var s := Encoding(c) + rest;
    var n := |c.username|;
    assert s[0] == n;
    assert s[1..1 + n] == c.username;
    assert s[1 + n] == |c.password|;
    assert s[2 + n..2 + n + |c.password|] == c.password;
  }

  /**
   * The decoder as written reads back the credentials `encode` wrote if and
   * only if both the username and the password are exactly two bytes long.
   */
  lemma AsWrittenRoundTripIff(c: UsernamePassword, rest: seq<Byte>)
    requires WellFormed(c) && Encodable(c)
    ensures DecodeAsWritten(Encoding(c) + rest) == Ok((c, |Encoding(c)|))
            <==> TwoByteParts(c)
  {
    if TwoByteParts(c) {
      DecodeRoundTrip(c, rest);
      var s := Encoding(c) + rest;
      assert ReadField(s, 0, true) == ReadField(s, 0, false);
      assert ReadField(s, 3, true) == ReadField(s, 3, false);
    }
  }

  /**
   * The credentials of the codec's authenticated round-trip case: "foobar"
   * and "abbacd" come back as "fo" and "ba", and only six of the fourteen
   * bytes are consumed.
   */
  lemma AsWrittenLosesLongCredentials()
    ensures var foobar := [0x66, 0x6f, 0x6f, 0x62, 0x61, 0x72];
            var abbacd := [0x61, 0x62, 0x62, 0x61, 0x63, 0x64];
            DecodeAsWritten(Encoding(UsernamePassword(foobar, abbacd)))
              == Ok((UsernamePassword([0x66, 0x6f], [0x62, 0x61]), 6))
  {
    var foobar: seq<Byte> := [0x66, 0x6f, 0x6f, 0x62, 0x61, 0x72];
    var abbacd: seq<Byte> := [0x61, 0x62, 0x62, 0x61, 0x63, 0x64];
    var s := Encoding(UsernamePassword(foobar, abbacd));
    assert s == [6] + foobar + [6] + abbacd;
    AsciiIsUtf8(s[1..3]);
    AsciiIsUtf8(s[4..6]);
    assert s[1..3] == [0x66, 0x6f] && s[3] == 0x6f && s[4..6] == [0x62, 0x61];
  }
}
