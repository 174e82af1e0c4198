/** `ExpectedVersion` for optimistic locking on writes (src/expected_version.rs). */
module ExpectedVersions {
  import opened Ints

  datatype ExpectedVersion = Any | NoStream | Exact(version: U32)

  /** `From<ExpectedVersion> for i32`: -2 and -1 are the sentinels, `Exact` is cast `as i32`. */
  function ToI32(e: ExpectedVersion): (r: I32)
    ensures e.Any? ==> r == -2
    ensures e.NoStream? ==> r == -1
    ensures e.Exact? && e.version <= I32_MAX ==> r == e.version
    ensures e.Exact? && e.version > I32_MAX ==> r == e.version - U32_LIMIT
  {
    match e
    case Any => -2
    case NoStream => -1
    case Exact(v) => AsI32(v)
  }

  /** Below 2^31 the wire mapping tells every expected version apart. */
  lemma WireInjectiveBelow2p31(a: ExpectedVersion, b: ExpectedVersion)
    requires a.Exact? ==> a.version <= I32_MAX
    requires b.Exact? ==> b.version <= I32_MAX
    ensures ToI32(a) == ToI32(b) ==> a == b
  {
  }

  /**
   * `Exact` of a version at or above 2^31 wraps to a negative `i32`: the two
   * largest collide with the sentinels of `Any` and `NoStream`.
   */
  lemma ExactWrapsOntoSentinels()
    ensures ToI32(Exact(0xFFFF_FFFF)) == ToI32(NoStream)
    ensures ToI32(Exact(0xFFFF_FFFE)) == ToI32(Any)
    ensures forall v: U32 :: v > I32_MAX ==> ToI32(Exact(v)) < 0
  {
  }
}
