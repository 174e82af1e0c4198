/**
 * A frame of the protocol (src/package.rs): optional credentials, the
 * correlation id that pairs a response with its request, and the message,
 * held either as just decoded (raw) or in its typed (adapted) form.
 */
module Package {
  import opened Ints
  import opened Wrappers
  import Errors
  import Auth
  import Raw
  import Adapted

  /** A `Uuid`: sixteen bytes, as they travel on the wire. */
  type Uuid = s: seq<Byte> | |s| == 16
    witness [0, 0, 0, 0, 0, 0, 0, 0, 0, 0, 0, 0, 0, 0, 0, 0]

  datatype MessageContainer =
    | Raw(raw: Raw.RawMessage)
    | Adapted(adapted: Adapted.AdaptedMessage)

  datatype Package = Package(
    authentication: Option<Auth.UsernamePassword>,
    correlationId: Uuid,
    message: MessageContainer)

  /**
   * `try_adapt`: an adapted message is handed out as it is; a raw one goes
   * through the typed conversion, which hands the raw message back with the
   * reason when it fails.
   */
  function TryAdapt(c: MessageContainer): (r: Result<Adapted.AdaptedMessage, (Raw.RawMessage, Errors.ErrorKind)>)
    requires c.Raw? ==> Adapted.Adaptable(c.raw)
    ensures c.Adapted? ==> r == Ok(c.adapted)
    ensures r.Err? ==> c.Raw? && r.error.0 == c.raw
    ensures c.Raw? && c.raw.Unsupported? ==>
      r == Err((c.raw, Errors.UnsupportedDiscriminator(c.raw.discriminator)))
  {
    match c
    case Adapted(a) => Ok(a)
    case Raw(m) => Adapted.TryFrom(m)
  }

  /**
   * Wrapping an adapted message and adapting it again is the identity, and an
   * adapted message that has a raw form survives the trip through a raw
   * container.
   */
  lemma TryAdaptRoundTrip(a: Adapted.AdaptedMessage)
    ensures TryAdapt(Adapted(a)) == Ok(a)
    ensures Adapted.HasRaw(a) && Adapted.Reversible(a) ==>
      Adapted.Adaptable(Adapted.AsRaw(a)) && TryAdapt(Raw(Adapted.AsRaw(a))) == Ok(a)
  {
    if Adapted.HasRaw(a) && Adapted.Reversible(a) {
      Adapted.AdaptedRoundTrip(a);
    }
  }
}
