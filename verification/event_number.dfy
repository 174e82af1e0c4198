/** `EventNumber`: where to start reading in a stream (src/event_number.rs). */
module EventNumbers {
  import opened Ints
  import opened Wrappers
  import opened Errors
  import opened StreamVersions

  datatype EventNumber = First | Exact(version: StreamVersion) | Last

  /** `From<StreamVersion>`. */
  function FromStreamVersion(v: StreamVersion): (r: EventNumber)
    ensures r.Exact? && r.version == v
  {
    Exact(v)
  }

  /** `From<EventNumber> for i32`: the wire value; only `Last` is negative. */
  function ToI32(n: EventNumber): (r: I32)
    ensures r >= -1
    ensures r == -1 <==> n.Last?
    ensures r == 0 <==> n.First? || n == Exact(StreamVersion(0))
    ensures n.Exact? ==> r == StreamVersions.ToI32(n.version)
  {
    match n
    case First => 0
    case Exact(x) => StreamVersions.ToI32(x)
    case Last => -1
  }

  /**
   * The conversion from an `i32` that the adaptation of read-stream
   * completions uses. It is used at src/adapted/mod.rs:428; src/event_number.rs
   * does not define it. It is taken to be `StreamVersion`'s `TryFrom<i32>` wrapped in `Exact`.
   */
  function TryFromI32(v: I32): (r: Result<EventNumber, ErrorKind>)
    ensures r.Ok? <==> v >= 0
    ensures r.Ok? ==> r.value.Exact? && ToI32(r.value) == v
    ensures r.Err? ==> r.error == InvalidStreamVersion(v)
  {
    var version :- StreamVersions.TryFromI32(v);
    Ok(Exact(version))
  }

  /**
   * The wire mapping is not injective: `First` and `Exact(0)` share 0.
   * Apart from that pair, different event numbers have different wire values.
   */
  lemma WireCollision(a: EventNumber, b: EventNumber)
    ensures ToI32(First) == ToI32(Exact(StreamVersion(0))) && First != Exact(StreamVersion(0))
    ensures ToI32(a) == ToI32(b) ==> a == b || {a, b} == {First, Exact(StreamVersion(0))}
  {
  }
}
