/**
 * The protocol-buffers coding the generated messages use (quick_protobuf's
 * `BytesReader` and `Writer`). A message is a sequence of fields; each is a
 * tag, `field_number << 3 | wire_type`, as a varint, and a value whose form
 * the wire type gives: 0 a varint, 1 eight bytes, 2 a varint length and that
 * many bytes, 5 four bytes. Varints are little-endian base 128. A `Field`
 * holds the field number and the value; the wire type, and so the tag, follow
 * from the value (`Field(1, LengthDelimited(_))` is the generated code's
 * `Ok(10)`).
 *
 * Every generated `from_reader` is the same loop: read a tag, then read the
 * value and store it in the field that tag names, or skip an unknown tag by
 * its wire type. The loop is `FromReader` below; each message supplies the
 * match on the tag as a `step` function.
 */
module Protobuf {
  import opened Ints
  import opened Wrappers
  import opened Errors
  import opened Utf8
  import Io

  /** Base-128 varint, least significant group first, high bit set on all but the last byte. */
  function VarintBytes(n: nat): (r: seq<Byte>)
    ensures 1 <= |r|
    decreases n
  {
    if n < 0x80 then [n] else [0x80 + n % 0x80] + VarintBytes(n / 0x80)
  }

  /** A varint at the head of `s`: its value and the number of bytes it took. */
  function ReadVarint(s: seq<Byte>): (r: Result<(nat, nat), ErrorKind>)
    ensures r.Ok? ==> 0 < r.value.1 <= |s|
    decreases |s|
  {
    if |s| == 0 then Err(ProtobufTruncated)
    else if s[0] < 0x80 then Ok((s[0], 1))
    else
      var tail :- ReadVarint(s[1..]);
      Ok((s[0] - 0x80 + 0x80 * tail.0, tail.1 + 1))
  }

  lemma {:induction false} VarintRoundTrip(n: nat, rest: seq<Byte>)
    ensures ReadVarint(VarintBytes(n) + rest) == Ok((n, |VarintBytes(n)|))
    decreases n
  {
    var s := VarintBytes(n) + rest;
    if n >= 0x80 {
      VarintRoundTrip(n / 0x80, rest);
      assert s[1..] == VarintBytes(n / 0x80) + rest;
    }
  }

  type Bytes8 = s: seq<Byte> | |s| == 8 witness [0, 0, 0, 0, 0, 0, 0, 0]
  type Bytes4 = s: seq<Byte> | |s| == 4 witness [0, 0, 0, 0]

  datatype WireValue =
    | Varint(n: nat)
    | Fixed64(bytes8: Bytes8)
    | LengthDelimited(bytes: seq<Byte>)
    | Fixed32(bytes4: Bytes4)

  /** A field number and its value. */
  datatype Field = Field(number: nat, value: WireValue)

  function WireType(v: WireValue): nat {
    match v
    case Varint(_) => 0
    case Fixed64(_) => 1
    case LengthDelimited(_) => 2
    case Fixed32(_) => 5
  }

  /** The tag written before the value. */
  function Tag(f: Field): nat {
    f.number * 8 + WireType(f.value)
  }

  function ValueBytes(v: WireValue): seq<Byte> {
    match v
    case Varint(n) => VarintBytes(n)
    case Fixed64(b) => b
    case LengthDelimited(b) => VarintBytes(|b|) + b
    case Fixed32(b) => b
  }

  /** `write_with_tag`: the tag, then the value. */
  function FieldBytes(f: Field): seq<Byte> {
    VarintBytes(Tag(f)) + ValueBytes(f.value)
  }

  /** The value of wire type `wireType` at the head of `s`, and the bytes it took. */
  function ReadValue(wireType: nat, s: seq<Byte>): (r: Result<(WireValue, nat), ErrorKind>)
    ensures r.Ok? ==> 0 < r.value.1 <= |s| && WireType(r.value.0) == wireType
  {
    if wireType == 0 then
      var n :- ReadVarint(s);
      Ok((Varint(n.0), n.1))
    else if wireType == 1 then
      if 8 <= |s| then Ok((Fixed64(s[..8]), 8)) else Err(ProtobufTruncated)
    else if wireType == 2 then
      var len :- ReadVarint(s);
      if len.1 + len.0 <= |s| then Ok((LengthDelimited(s[len.1..len.1 + len.0]), len.1 + len.0))
      else Err(ProtobufTruncated)
    else if wireType == 5 then
      if 4 <= |s| then Ok((Fixed32(s[..4]), 4)) else Err(ProtobufTruncated)
    else Err(ProtobufWireType(wireType))
  }

  /** `next_tag` followed by the read the tag's wire type calls for. */
  function ReadField(s: seq<Byte>): (r: Result<(Field, nat), ErrorKind>)
    ensures r.Ok? ==> 0 < r.value.1 <= |s|
    ensures r.Ok? ==> ReadVarint(s).Ok? && Tag(r.value.0) == ReadVarint(s).value.0
  {
    var tag :- ReadVarint(s);
    var value :- ReadValue(tag.0 % 8, s[tag.1..]);
    Ok((Field(tag.0 / 8, value.0), tag.1 + value.1))
  }

  lemma LengthDelimitedRoundTrip(b: seq<Byte>, rest: seq<Byte>)
    ensures ReadValue(2, VarintBytes(|b|) + b + rest) == Ok((LengthDelimited(b), |VarintBytes(|b|)| + |b|))
  {
    var lb := VarintBytes(|b|);
    var s := lb + b + rest;
    assert s == lb + (b + rest);
    VarintRoundTrip(|b|, b + rest);
    assert ReadVarint(s) == Ok((|b|, |lb|));
    assert s[|lb|..|lb| + |b|] == b;
  }

  lemma ValueRoundTrip(v: WireValue, rest: seq<Byte>)
    ensures ReadValue(WireType(v), ValueBytes(v) + rest) == Ok((v, |ValueBytes(v)|))
  {
    match v
    case Varint(n) =>
      VarintRoundTrip(n, rest);
    case Fixed64(b) =>
      assert (b + rest)[..8] == b;
    case LengthDelimited(b) =>
      LengthDelimitedRoundTrip(b, rest);
    case Fixed32(b) =>
      assert (b + rest)[..4] == b;
  }

  /** Reading a written field gives it back and consumes exactly its bytes. */
  lemma FieldRoundTrip(f: Field, rest: seq<Byte>)
    ensures ReadField(FieldBytes(f) + rest) == Ok((f, |FieldBytes(f)|))
  {
    var s := FieldBytes(f) + rest;
    var k := VarintBytes(Tag(f));
    assert s == k + (ValueBytes(f.value) + rest);
    VarintRoundTrip(Tag(f), ValueBytes(f.value) + rest);
    assert Tag(f) % 8 == WireType(f.value) && Tag(f) / 8 == f.number;
    assert s[|k|..] == ValueBytes(f.value) + rest;
    ValueRoundTrip(f.value, rest);
  }

  /** The bytes of a message whose fields are written in the order given. */
  function Serialize(fs: seq<Field>): seq<Byte>
    decreases |fs|
  {
    if fs == [] then [] else FieldBytes(fs[0]) + Serialize(fs[1..])
  }

  lemma {:induction false} SerializeAppend(a: seq<Field>, b: seq<Field>)
    ensures Serialize(a + b) == Serialize(a) + Serialize(b)
    decreases |a|
  {
    if a == [] {
      assert a + b == b;
    } else {
      assert (a + b)[1..] == a[1..] + b;
      SerializeAppend(a[1..], b);
    }
  }

  /** The meaning of a `from_reader` loop: read fields until the input ends, applying `step` to each. */
  function ReadFields<M>(step: (M, Field) -> Result<M, ErrorKind>, msg: M, s: seq<Byte>): Result<M, ErrorKind>
    decreases |s|
  {
    if |s| == 0 then Ok(msg)
    else
      var f :- ReadField(s);
      var next :- step(msg, f.0);
      ReadFields(step, next, s[f.1..])
  }

  /** `step` applied to the fields `fs[i..]` in order, stopping at the first error. */
  function FoldFields<M>(step: (M, Field) -> Result<M, ErrorKind>, msg: M, fs: seq<Field>, i: nat): Result<M, ErrorKind>
    requires i <= |fs|
    decreases |fs| - i
  {
    if i == |fs| then Ok(msg)
    else
      var next :- step(msg, fs[i]);
      FoldFields(step, next, fs, i + 1)
  }

  /** Folding from position `|a|` of `a + b` is folding over `b`. */
  lemma {:induction false} FoldShift<M>(step: (M, Field) -> Result<M, ErrorKind>, msg: M, a: seq<Field>, b: seq<Field>, i: nat)
    requires i <= |b|
    ensures FoldFields(step, msg, a + b, |a| + i) == FoldFields(step, msg, b, i)
    decreases |b| - i
  {
    if i < |b| {
      assert (a + b)[|a| + i] == b[i];
      match step(msg, b[i])
      case Ok(next) => FoldShift(step, next, a, b, i + 1);
      case Err(_) =>
    }
  }

  /** Folding over `a + b` folds over `a`, then over `b`; an error in `a` ends it. */
  lemma {:induction false} FoldAppend<M>(step: (M, Field) -> Result<M, ErrorKind>, msg: M, a: seq<Field>, b: seq<Field>, i: nat)
    requires i <= |a|
    ensures FoldFields(step, msg, a + b, i)
            == (match FoldFields(step, msg, a, i)
                case Ok(m) => FoldFields(step, m, b, 0)
                case Err(e) => Err(e))
    decreases |a| - i
  {
    if i == |a| {
      FoldShift(step, msg, a, b, 0);
    } else {
      assert (a + b)[i] == a[i];
      match step(msg, a[i])
      case Ok(next) => FoldAppend(step, next, a, b, i + 1);
      case Err(_) =>
    }
  }

  /** A one-field list folds to that field's step. */
  lemma FoldSingle<M>(step: (M, Field) -> Result<M, ErrorKind>, msg: M, f: Field)
    ensures FoldFields(step, msg, [f], 0) == step(msg, f)
  {
    match step(msg, f)
    case Ok(next) => assert FoldFields(step, next, [f], 1) == Ok(next);
    case Err(_) =>
  }

  /** A field in front: its step, then the rest. */
  lemma FoldCons<M>(step: (M, Field) -> Result<M, ErrorKind>, msg: M, f: Field, rest: seq<Field>, next: M)
    requires step(msg, f) == Ok(next)
    ensures FoldFields(step, msg, [f] + rest, 0) == FoldFields(step, next, rest, 0)
  {
    FoldSingle(step, msg, f);
    FoldAppend(step, msg, [f], rest, 0);
  }

  /** `push` applied to each of `items` in turn, starting from `msg`. */
  function PushAll<M, T>(push: (M, T) -> M, msg: M, items: seq<T>): M
    decreases |items|
  {
    if items == [] then msg else PushAll(push, push(msg, items[0]), items[1..])
  }

  /**
   * A repeated field: when field `j` of `fs` always pushes `items[j]` onto
   * the message, folding over `fs[i..]` pushes `items[i..]` in order.
   */
  lemma {:induction false} FoldRepeated<M, T>(step: (M, Field) -> Result<M, ErrorKind>, push: (M, T) -> M,
                                              msg: M, fs: seq<Field>, items: seq<T>, i: nat)
    requires |fs| == |items| && i <= |fs|
    requires forall x: M, j :: 0 <= j < |fs| ==> step(x, fs[j]) == Ok(push(x, items[j]))
    ensures FoldFields(step, msg, fs, i) == Ok(PushAll(push, msg, items[i..]))
    decreases |fs| - i
  {
    if i < |fs| {
      FoldRepeated(step, push, push(msg, items[i]), fs, items, i + 1);
      assert items[i..][1..] == items[i + 1..];
    }
  }

  /** Folding two lists in turn: the message after `a` is where `b` starts. */
  lemma FoldSnoc<M>(step: (M, Field) -> Result<M, ErrorKind>, msg: M, a: seq<Field>, b: seq<Field>, mid: M, end: M)
    requires FoldFields(step, msg, a, 0) == Ok(mid)
    requires FoldFields(step, mid, b, 0) == Ok(end)
    ensures FoldFields(step, msg, a + b, 0) == Ok(end)
  {
    FoldAppend(step, msg, a, b, 0);
  }

  /** Reading the bytes of well-formed fields sees exactly those fields, in order. */
  lemma {:induction false} ReadSerialized<M>(step: (M, Field) -> Result<M, ErrorKind>, msg: M, fs: seq<Field>, i: nat)
    requires i <= |fs|
    ensures ReadFields(step, msg, Serialize(fs[i..])) == FoldFields(step, msg, fs, i)
    decreases |fs| - i
  {
    if i < |fs| {
      var s := Serialize(fs[i..]);
      assert fs[i..][1..] == fs[i + 1..];
      assert s == FieldBytes(fs[i]) + Serialize(fs[i + 1..]);
      FieldRoundTrip(fs[i], Serialize(fs[i + 1..]));
      assert s[|FieldBytes(fs[i])|..] == Serialize(fs[i + 1..]);
      match step(msg, fs[i])
      case Ok(next) => ReadSerialized(step, next, fs, i + 1);
      case Err(_) =>
    } else {
      assert fs[i..] == [];
    }
  }

  /** The same for a whole message. */
  lemma ReadMessage<M>(step: (M, Field) -> Result<M, ErrorKind>, msg: M, fs: seq<Field>)
    ensures ReadFields(step, msg, Serialize(fs)) == FoldFields(step, msg, fs, 0)
  {
    assert fs[0..] == fs;
    ReadSerialized(step, msg, fs, 0);
  }

  /** One turn of the `from_reader` loop: a field that cannot be read or stored ends it with that error. */
  lemma ReadFieldsHead<M>(step: (M, Field) -> Result<M, ErrorKind>, msg: M, s: seq<Byte>)
    requires |s| > 0
    ensures ReadField(s).Err? ==> ReadFields(step, msg, s) == Err(ReadField(s).error)
    ensures ReadField(s).Ok? && step(msg, ReadField(s).value.0).Err?
            ==> ReadFields(step, msg, s) == Err(step(msg, ReadField(s).value.0).error)
    ensures ReadField(s).Ok? && step(msg, ReadField(s).value.0).Ok?
            ==> ReadFields(step, msg, s)
                == ReadFields(step, step(msg, ReadField(s).value.0).value, s[ReadField(s).value.1..])
  {
  }

  /** `read_unknown`: a field the step leaves the message unchanged by is skipped whole. */
  lemma SkipField<M>(step: (M, Field) -> Result<M, ErrorKind>, msg: M, f: Field, rest: seq<Byte>)
    requires step(msg, f) == Ok(msg)
    ensures ReadFields(step, msg, FieldBytes(f) + rest) == ReadFields(step, msg, rest)
  {
    var s := FieldBytes(f) + rest;
    FieldRoundTrip(f, rest);
    assert s[|FieldBytes(f)|..] == rest;
  }

  /** The generated `from_reader`: `while !r.is_eof()`, read a tag and dispatch on it. */
  method FromReader<M>(step: (M, Field) -> Result<M, ErrorKind>, default: M, bytes: seq<Byte>)
    returns (r: Result<M, ErrorKind>)
    ensures r == ReadFields(step, default, bytes)
  {
    var msg := default;
    var pos := 0;
    while pos < |bytes|
      invariant 0 <= pos <= |bytes|
      invariant ReadFields(step, default, bytes) == ReadFields(step, msg, bytes[pos..])
      decreases |bytes| - pos
    {
      var rest := bytes[pos..];
      ReadFieldsHead(step, msg, rest);
      var read := ReadField(rest);
      if read.Err? {
        return Err(read.error);
      }
      var next := step(msg, read.value.0);
      if next.Err? {
        return Err(next.error);
      }
      assert rest[read.value.1..] == bytes[pos + read.value.1..];
      msg := next.value;
      pos := pos + read.value.1;
    }
    return Ok(msg);
  }

  /** The bytes of each field, in order. */
  function FieldChunks(fs: seq<Field>): (r: seq<seq<Byte>>)
    ensures |r| == |fs|
  {
    if fs == [] then [] else [FieldBytes(fs[0])] + FieldChunks(fs[1..])
  }

  lemma {:induction false} JoinFieldChunks(fs: seq<Field>)
    ensures Io.Join(FieldChunks(fs)) == Serialize(fs)
  {
    if fs != [] {
      JoinFieldChunks(fs[1..]);
      assert FieldChunks(fs)[1..] == FieldChunks(fs[1..]);
    }
  }

  /**
   * A `write_message` body: each field in turn, tag then value, at the end of
   * the writer; together the fields' bytes are the message's serialization.
   */
  method WriteMessage(w: Io.Cursor, fs: seq<Field>)
    requires w.Valid() && w.pos == |w.data|
    modifies w
    ensures w.Valid() && w.data == old(w.data) + Serialize(fs) && w.pos == |w.data|
  {
    w.WriteChunks(FieldChunks(fs));
    JoinFieldChunks(fs);
  }


  // Scalar values, as the generated code reads and writes them.

  /** `write_int32`, `write_enum`: the value sign-extended to 64 bits. */
  function FromInt32(v: I32): nat { AsU64(v) }

  /** `read_int32`, and `read_enum` before `From<i32>`: the low 32 bits, signed. */
  function ToInt32(n: nat): I32 { AsI32(n) }

  /** `write_int64`. */
  function FromInt64(v: I64): nat { AsU64(v) }

  /** `read_int64`: the low 64 bits, signed. */
  function ToInt64(n: nat): I64 { AsI64(n) }

  /** `write_bool`. */
  function FromBool(b: bool): nat { if b then 1 else 0 }

  /** `read_bool`. */
  function ToBool(n: nat): bool { n != 0 }

  /** `read_string`: the bytes must be UTF-8. */
  function ToString(b: seq<Byte>): (r: Result<seq<Byte>, ErrorKind>)
    ensures r.Ok? <==> IsUtf8(b)
    ensures r.Ok? ==> r.value == b
  {
    if IsUtf8(b) then Ok(b) else Err(ProtobufUtf8)
  }

  lemma Int32RoundTrip(v: I32)
    ensures ToInt32(FromInt32(v)) == v
  {
    if v < 0 {
      assert FromInt32(v) == v + U64_LIMIT;
      assert (v + U64_LIMIT) % U32_LIMIT == v + U32_LIMIT by {
        assert v + U64_LIMIT == (v + U32_LIMIT) + (U32_LIMIT - 1) * U32_LIMIT;
      }
    }
  }

  lemma Int64RoundTrip(v: I64)
    ensures ToInt64(FromInt64(v)) == v
  {
  }

  lemma BoolRoundTrip(b: bool)
    ensures ToBool(FromBool(b)) == b
  {
  }

  // Field constructors for the `write_message` bodies.

  function Int32Field(number: nat, v: I32): Field { Field(number, Varint(FromInt32(v))) }
  function Int64Field(number: nat, v: I64): Field { Field(number, Varint(FromInt64(v))) }
  function BoolField(number: nat, b: bool): Field { Field(number, Varint(FromBool(b))) }
  function BytesField(number: nat, b: seq<Byte>): Field { Field(number, LengthDelimited(b)) }
  function MessageField(number: nat, fs: seq<Field>): Field { Field(number, LengthDelimited(Serialize(fs))) }

  /** Fields written only when an optional value is present (`if let Some(ref s) = ...`). */
  function Present<T>(o: Option<T>, f: T -> Field): seq<Field> {
    if o.Some? then [f(o.value)] else []
  }
}
