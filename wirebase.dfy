/** Limits and failure conditions shared by the two wire protocols. */
module WireBase {

  /** Largest message content, in bytes, either protocol will serialize. */
  const MAX_CONTENT: nat := 1_000_000

  /** Largest payload length the binary frame extractor accepts. */
  const MAX_PAYLOAD: nat := 1_000_000

  datatype CodecError =
    | ContentTooLarge   // content over MAX_CONTENT bytes (the ValueError)
    | PackError         // a number or count that does not fit its field (struct.error, OverflowError)
    | Truncated         // bytes ran out while decoding (struct.error, IndexError)
    | Unparsable        // the JSON body is not a valid record (pydantic's ValidationError)
    | FrameTooLarge     // payload over MAX_PAYLOAD
    | UnknownProtocol   // ProtocolFactory.create of an unknown name
}
