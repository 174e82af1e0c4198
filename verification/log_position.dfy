/**
 * `LogPosition`: a global position in the event store's transaction log
 * (src/log_position.rs). On the wire it is an `i64` in which 0 means the
 * first and -1 the last position.
 */
module LogPositions {
  import opened Ints
  import opened Wrappers
  import opened Errors

  datatype LogPosition = First | Exact(position: U64) | Last

  /** `TryFrom<i64>`: 0, -1 and positives are accepted, anything below -1 underflows. */
  function TryFromI64(v: I64): (r: Result<LogPosition, ErrorKind>)
    ensures r.Ok? <==> v >= -1
    ensures r.Err? ==> r.error == UnderflowLogPosition(v)
    ensures r.Ok? ==> (r.value.First? <==> v == 0) && (r.value.Last? <==> v == -1)
    ensures r.Ok? ==> ToI64(r.value) == v && WellFormed(r.value)
  {
    if v == 0 then Ok(First)
    else if v == -1 then Ok(Last)
    else if v > 0 then Ok(Exact(v))
    else Err(UnderflowLogPosition(v))
  }

  /** `TryFrom<u64>`: 0 and values up to `i64::MAX` are accepted; it never yields `Last`. */
  function TryFromU64(v: U64): (r: Result<LogPosition, ErrorKind>)
    ensures r.Ok? <==> v <= I64_MAX
    ensures r.Err? ==> r.error == OverflowLogPosition(v)
    ensures r.Ok? ==> !r.value.Last?
  {
    if v == 0 then Ok(First)
    else if v <= I64_MAX then Ok(Exact(v))
    else Err(OverflowLogPosition(v))
  }

  /** `Into<i64>`: `Exact` is cast `as i64`. */
  function ToI64(p: LogPosition): (r: I64)
  {
    match p
    case First => 0
    case Exact(x) => AsI64(x)
    case Last => -1
  }

  /** A position as the `TryFrom` conversions produce it: `Exact` only of a positive `i64`. */
  predicate WellFormed(p: LogPosition) {
    p.Exact? ==> 0 < p.position <= I64_MAX
  }

  /** The order derived by `#[derive(PartialOrd, Ord)]`: by variant, then by value. */
  predicate Less(a: LogPosition, b: LogPosition) {
    match (a, b)
    case (First, First) => false
    case (First, _) => true
    case (Exact(x), Exact(y)) => x < y
    case (Exact(_), Last) => true
    case (_, _) => false
  }

  /** Every wire value from -1 up round-trips through `LogPosition`. */
  lemma I64RoundTrip(v: I64)
    requires v >= -1
    ensures TryFromI64(v).Ok? && WellFormed(TryFromI64(v).value)
    ensures ToI64(TryFromI64(v).value) == v
  {
  }

  /**
   * Every well-formed position round-trips through its wire value. `Exact(0)`
   * does not: its wire value 0 reads back as `First`.
   */
  lemma PositionRoundTrip(p: LogPosition)
    ensures WellFormed(p) ==> TryFromI64(ToI64(p)) == Ok(p)
    ensures TryFromI64(ToI64(Exact(0))) == Ok(First)
  {
  }

  /** The two conversions agree where both apply. */
  lemma U64AgreesWithI64(v: int)
    requires 0 <= v <= I64_MAX
    ensures TryFromU64(v) == TryFromI64(v)
  {
  }

  /** The derived order is a strict total order. */
  lemma LessIsStrictTotalOrder(a: LogPosition, b: LogPosition, c: LogPosition)
    ensures !Less(a, a)
    ensures Less(a, b) && Less(b, c) ==> Less(a, c)
    ensures a == b || Less(a, b) || Less(b, a)
  {
  }

  /**
   * Among well-formed positions other than `Last` the order is the order of
   * the wire values; `Last` is the greatest position but has the smallest
   * wire value.
   */
  lemma LessMatchesWire(a: LogPosition, b: LogPosition)
    requires WellFormed(a) && WellFormed(b)
    ensures !a.Last? && !b.Last? ==> (Less(a, b) <==> ToI64(a) < ToI64(b))
    ensures !a.Last? ==> Less(a, Last) && ToI64(Last) < ToI64(a)
  {
  }
}
