/**
 * The JSON protocol's framing: each message body is followed by one
 * newline byte. The JSON body itself is produced and parsed by a library
 * outside this model, so it enters here as a pair of functions.
 */
module JsonWire {
  import opened Octets
  import opened Wrappers
  import opened Schemas
  import opened WireBase

  /** frame_message: the body, then the delimiter. */
  function JsonFrame(body: Text): (r: Text)
    ensures |r| == |body| + 1 && r[..|body|] == body && r[|body|] == NEWLINE
  {
    body + [NEWLINE]
  }

  /** The position of the first newline, if any. */
  function NewlineIndex(buf: Text): (r: Option<nat>)
    ensures r.None? <==> NEWLINE !in buf
    ensures r.Some? ==> r.value < |buf| && buf[r.value] == NEWLINE
    ensures r.Some? ==> forall j | 0 <= j < r.value :: buf[j] != NEWLINE
  {
    if buf == [] then None
    else if buf[0] == NEWLINE then Some(0)
    else
      match NewlineIndex(buf[1..])
      case None => None
      case Some(i) => Some(i + 1)
  }

  /**
   * extract_message: everything before the first newline is one body, the
   * newline is consumed, and the rest stays buffered; with no newline the
   * buffer is left as it is.
   */
  function JsonExtract(buf: Text): (r: (Option<Text>, Text))
    ensures r.0.None? <==> NEWLINE !in buf
    ensures r.0.None? ==> r.1 == buf
    ensures r.0.Some? ==> buf == r.0.value + [NEWLINE] + r.1 && NEWLINE !in r.0.value
  {
    match NewlineIndex(buf)
    case None => (None, buf)
    case Some(i) =>
      assert buf == buf[..i] + [NEWLINE] + buf[i + 1..];
      (Some(buf[..i]), buf[i + 1..])
  }

  /** A framed body that holds no newline comes back out whole, with whatever followed it left over. */
  lemma JsonFrameRoundTrip(body: Text, rest: Text)
    requires NEWLINE !in body
    ensures JsonExtract(JsonFrame(body) + rest) == (Some(body), rest)
  {
    var buf := JsonFrame(body) + rest;
    assert buf == body + [NEWLINE] + rest;
    assert buf[|body|] == NEWLINE;
    var i := NewlineIndex(buf).value;
    assert i == |body|;
    assert buf[..i] == body;
  }

  /** JSON serialize_message: the content-size check, then the library's encoding. */
  function JsonEncodeMessage(m: ChatMessage, dump: ChatMessage -> Text): (r: Result<Text, CodecError>)
    ensures r.Err? <==> |m.content| > MAX_CONTENT
    ensures r.Ok? ==> r.value == dump(m)
  {
    if |m.content| > MAX_CONTENT then Err(ContentTooLarge) else Ok(dump(m))
  }

  /** JSON deserialize_message: the library's parse, then the same content-size check. */
  function JsonDecodeMessage(data: Text, load: Text -> Option<ChatMessage>): (r: Result<ChatMessage, CodecError>)
    ensures load(data).None? ==> r == Err(Unparsable)
    ensures load(data).Some? ==> (r.Ok? <==> |load(data).value.content| <= MAX_CONTENT)
    ensures r.Ok? ==> r.value == load(data).value
  {
    match load(data)
    case None => Err(Unparsable)
    case Some(m) => if |m.content| > MAX_CONTENT then Err(ContentTooLarge) else Ok(m)
  }

  /**
   * End to end over the JSON protocol: when the library's parse inverts its
   * encoding and the encoding holds no raw newline, a message the sender
   * accepts is received unchanged, whatever follows it in the stream.
   */
  lemma JsonMessageRoundTrip(m: ChatMessage, rest: Text, dump: ChatMessage -> Text, load: Text -> Option<ChatMessage>)
    requires load(dump(m)) == Some(m) && NEWLINE !in dump(m)
    requires JsonEncodeMessage(m, dump).Ok?
    ensures var (body, left) := JsonExtract(JsonFrame(JsonEncodeMessage(m, dump).value) + rest);
      && body == Some(dump(m)) && left == rest
      && JsonDecodeMessage(body.value, load) == Ok(m)
  {
    JsonFrameRoundTrip(dump(m), rest);
  }
}
