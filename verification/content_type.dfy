/** `ContentType` of event data and metadata (src/content_type.rs, and its twin in src/builder.rs). */
module ContentTypes {
  import opened Ints

  datatype ContentType = Bytes | Json

  /** `From<ContentType> for i32`: Bytes is 0 and Json is 1, so the two are told apart on the wire. */
  function ToI32(c: ContentType): (r: I32)
    ensures 0 <= r <= 1
    ensures r == 1 <==> c.Json?
  {
    match c
    case Bytes => 0
    case Json => 1
  }
}
