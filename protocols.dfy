/** The choice of wire protocol and the operations both protocols share. */
module Protocols {
  import opened Octets
  import opened Wrappers
  import opened WireBase
  import opened Schemas
  import CustomWire
  import JsonWire

  datatype Protocol = Json | Custom

  /** ProtocolFactory.create: the two known names, anything else is refused. */
  function Create(name: Text): (r: Result<Protocol, CodecError>)
    ensures r == Ok(Json) <==> name == Ascii("json")
    ensures r == Ok(Custom) <==> name == Ascii("custom")
    ensures r.Err? ==> r.error == UnknownProtocol
  {
    if name == Ascii("json") then Ok(Json)
    else if name == Ascii("custom") then Ok(Custom)
    else Err(UnknownProtocol)
  }

  function Frame(p: Protocol, data: Text): Text
  {
    match p
    case Json => JsonWire.JsonFrame(data)
    case Custom => CustomWire.FrameMessage(data)
  }

  function Extract(p: Protocol, buf: Text): (Option<Text>, Text)
  {
    match p
    case Json => JsonWire.JsonExtract(buf)
    case Custom => CustomWire.ExtractFrame(buf)
  }

  /** deserialize_message: the JSON parser is a parameter; the binary decoder is modelled. */
  function Decode(p: Protocol, data: Text, load: Text -> Option<ChatMessage>): Result<ChatMessage, CodecError>
  {
    match p
    case Json => JsonWire.JsonDecodeMessage(data, load)
    case Custom => CustomWire.DecodeMessage(data)
  }

  /** The bodies each protocol's framing can carry intact. */
  predicate Carries(p: Protocol, data: Text)
  {
    match p
    case Json => NEWLINE !in data
    case Custom => CustomWire.WellFormed(data)
  }

  /** For either protocol, a framed body is extracted whole from the front of the stream. */
  lemma FrameRoundTrip(p: Protocol, data: Text, rest: Text)
    requires Carries(p, data)
    ensures Extract(p, Frame(p, data) + rest) == (Some(data), rest)
  {
    match p
    case Json => JsonWire.JsonFrameRoundTrip(data, rest);
    case Custom => CustomWire.ExtractWellFormed(data, rest);
  }

  /** Neither extractor ever adds bytes: what it leaves is a suffix of what it was given. */
  lemma ExtractShrinks(p: Protocol, buf: Text)
    ensures var (frame, left) := Extract(p, buf);
      && |left| <= |buf|
      && (frame.Some? ==> |left| < |buf|)
  {
  }
}
