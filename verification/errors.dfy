/**
 * The failures the wire layer reports: the crate's own error kinds and the
 * `io::Error`s the codec and the protobuf reader raise.
 */
module Errors {
  import opened Ints

  /** Which completion message lacked its `result` field. */
  datatype ResultStatusKind = WriteEvents | ReadEvent | ReadStream

  datatype ErrorKind =
    | InvalidFlags(flags: Byte)
    | UnsupportedDiscriminator(discriminator: Byte)
    | InvalidStreamVersion(version: I32)
    | UnderflowLogPosition(signed: I64)
    | OverflowLogPosition(unsigned: U64)
    | MissingResultField(kind: ResultStatusKind)
    | WriteEventsInvalidTransaction
    | UnimplementedConversion
    | Utf8Error
      // io::ErrorKind::UnexpectedEof: a read past the end of the input
    | UnexpectedEof
      // io::ErrorKind::InvalidData: credentials that are not UTF-8
    | InvalidData
      // the protobuf reader met a field it cannot read
    | ProtobufTruncated
    | ProtobufWireType(wireType: nat)
    | ProtobufUtf8
}
