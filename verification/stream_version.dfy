/**
 * `StreamVersion`: the number of the latest event of a stream. The Rust
 * struct wraps a private `u32`; every way of building one keeps it at or
 * below `i32::MAX`, because negative `i32` values are sentinels on the wire.
 * The model puts that invariant into the field's type.
 *
 * The crate defines the struct twice (src/stream_version.rs and
 * src/builder.rs); they have the same representation and are one datatype
 * here, with the conversions of both files.
 */
module StreamVersions {
  import opened Ints
  import opened Wrappers
  import opened Errors

  type Version = v: int | 0 <= v <= 0x7fff_ffff

  datatype StreamVersion = StreamVersion(value: Version)

  /** `From<StreamVersion> for u32`. */
  function ToU32(v: StreamVersion): (r: U32)
    ensures r <= I32_MAX
  {
    v.value
  }

  /** `From<StreamVersion> for i32`: `.0 as i32`, which never lands on a negative sentinel. */
  function ToI32(v: StreamVersion): (r: I32)
    ensures 0 <= r && r == ToU32(v)
  {
    AsI32(v.value)
  }

  /** `TryFrom<u32>`: accepts values strictly below `i32::MAX`; the error carries `ver as i32`. */
  function TryFromU32(ver: U32): (r: Result<StreamVersion, ErrorKind>)
    ensures r.Ok? <==> ver < I32_MAX
    ensures r.Ok? ==> ToU32(r.value) == ver
    ensures r.Err? ==> r.error.InvalidStreamVersion? && (r.error.version < 0 <==> ver > I32_MAX)
  {
    if ver < I32_MAX then Ok(StreamVersion(ver)) else Err(InvalidStreamVersion(AsI32(ver)))
  }

  /** `TryFrom<i32>`: accepts every non-negative value, `i32::MAX` included. */
  function TryFromI32(ver: I32): (r: Result<StreamVersion, ErrorKind>)
    ensures r.Ok? <==> ver >= 0
    ensures r.Ok? ==> ToI32(r.value) == ver
    ensures r.Err? ==> r.error == InvalidStreamVersion(ver)
  {
    if ver >= 0 then Ok(StreamVersion(AsU32(ver))) else Err(InvalidStreamVersion(ver))
  }

  /** builder.rs `StreamVersion::from_opt`: `Some` strictly below `i32::MAX`. */
  function FromOpt(version: U32): (r: Option<StreamVersion>)
    ensures r.Some? <==> version < I32_MAX
    ensures r.Some? ==> ToU32(r.value) == version
  {
    if version < I32_MAX then Some(StreamVersion(version)) else None
  }

  /** builder.rs `StreamVersion::from_i32_opt`: rejects negatives and also `i32::MAX`. */
  function FromI32Opt(version: I32): (r: Option<StreamVersion>)
    ensures r.Some? <==> 0 <= version < I32_MAX
    ensures r.Some? ==> ToI32(r.value) == version
  {
    if version < 0 then None
    else if version == I32_MAX then None
    else Some(StreamVersion(version))
  }

  /** builder.rs `StreamVersion::from_i32`, which panics where `from_i32_opt` gives `None`. */
  function FromI32(version: I32): (r: StreamVersion)
    requires 0 <= version < I32_MAX
    ensures ToI32(r) == version
  {
    FromI32Opt(version).value
  }

  /** Every stream version survives the trip through its `i32` wire form. */
  lemma I32RoundTrip(v: StreamVersion)
    ensures TryFromI32(ToI32(v)) == Ok(v)
  {
  }

  /**
   * The `u32` conversion is stricter than the `i32` one: the version
   * `i32::MAX` is reachable only from an `i32`, and its `u32` form is refused.
   */
  lemma U32RejectsWhatI32Accepts()
    ensures TryFromI32(I32_MAX).Ok?
    ensures TryFromU32(I32_MAX) == Err(InvalidStreamVersion(I32_MAX))
    ensures forall v: StreamVersion :: TryFromU32(ToU32(v)).Ok? <==> v.value != I32_MAX
  {
  }

  /** The two builder.rs constructors agree with the `TryFrom` impls except at `i32::MAX`. */
  lemma BuilderConstructorsAgree(u: U32, i: I32)
    ensures FromOpt(u) == TryFromU32(u).ToOption()
    ensures i != I32_MAX ==> FromI32Opt(i) == TryFromI32(i).ToOption()
    ensures FromI32Opt(I32_MAX) == None && TryFromI32(I32_MAX).Ok?
  {
  }
}
