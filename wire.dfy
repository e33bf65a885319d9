/**
 * The custom binary wire protocol. A frame is a 1-byte type tag, a 4-byte
 * big-endian payload length and the payload. Inside the payload, strings
 * carry a 4-byte big-endian length prefix, lists a 1-byte count, and
 * absent optional fields are written as their zero value.
 */
module CustomWire {
  import opened Octets
  import opened Wrappers
  import opened Schemas
  import opened WireBase

  const HEADER_LEN: nat := 5

  // ---------------------------------------------------------------------
  // Tag table
  // ---------------------------------------------------------------------

  /** The pinned tag of each message kind: its position in the enumeration. */
  function TypeTag(t: MessageType): (b: byte)
    ensures b < |ALL_TYPES| && ALL_TYPES[b] == t
  {
    match t
    case ServerResponse => 0
    case Login => 1
    case Logout => 2
    case Join => 3
    case Register => 4
    case Chat => 5
    case Dm => 6
    case Fetch => 7
    case MarkRead => 8
    case Delete => 9
    case DeleteNotification => 10
    case DeleteAccount => 11
  }

  /** The reverse table: the kind a tag byte stands for, if any. */
  function TagType(b: byte): (r: Option<MessageType>)
    ensures r.Some? <==> b < 12
    ensures r.Some? ==> TypeTag(r.value) == b
  {
    AllTypesEnumerates();
    if b < 12 then Some(ALL_TYPES[b]) else None
  }

  lemma TagTypeOfTag(t: MessageType)
    ensures TagType(TypeTag(t)) == Some(t)
  {
  }

  /** The tag of the kind at position i of the enumeration is i. */
  lemma TagOfIndex(i: nat)
    requires i < |ALL_TYPES|
    ensures TypeTag(ALL_TYPES[i]) == i
  {
    AllTypesEnumerates();
  }

  /**
   * The constructor's two dictionaries, built by enumerating the kinds in
   * declaration order: they agree with the pinned table and are inverse.
   */
  method BuildTagTables() returns (types: map<MessageType, byte>, reverse: map<byte, MessageType>)
    ensures forall t: MessageType :: t in types && types[t] == TypeTag(t)
    ensures forall b: byte :: b in reverse <==> b < 12
    ensures forall b | b in reverse :: TagType(b) == Some(reverse[b]) && types[reverse[b]] == b
  {
    AllTypesEnumerates();
    types := map[];
    for i := 0 to |ALL_TYPES|
      invariant forall t :: t in types <==> TypeTag(t) < i
      invariant forall t | t in types :: types[t] == TypeTag(t)
    {
      TagOfIndex(i);
      types := types[ALL_TYPES[i] := i];
    }
    reverse := map[];
    for i := 0 to |ALL_TYPES|
      invariant forall b: byte :: b in reverse <==> b < i
      invariant forall b | b in reverse :: reverse[b] == ALL_TYPES[b] && TypeTag(reverse[b]) == b
    {
      TagOfIndex(i);
      reverse := reverse[i := ALL_TYPES[i]];
    }
  }

  // ---------------------------------------------------------------------
  // Field encodings
  // ---------------------------------------------------------------------

  predicate FitsU32(n: int) { 0 <= n < U32_LIMIT }

  predicate Packable(s: Text) { |s| < U32_LIMIT }

  predicate ListPackable(xs: seq<Text>)
  {
    |xs| < 256 && forall i | 0 <= i < |xs| :: Packable(xs[i])
  }

  /** serialize_string: the 4-byte big-endian length, then the bytes. */
  function StrBytes(s: Text): (r: Text)
    requires Packable(s)
    ensures |r| == 4 + |s| && r[4..] == s
  {
    U32(|s|) + s
  }

  /** serialize_string's prefix reads back as the string's length. */
  lemma StrBytesPrefix(s: Text)
    requires Packable(s)
    ensures FromBE(StrBytes(s)[..4]) == |s|
  {
    assert StrBytes(s)[..4] == U32(|s|);
    U32RoundTrip(|s|);
  }

  /** The strings of a list, one after the other. */
  function ListBytes(xs: seq<Text>): Text
    requires forall i | 0 <= i < |xs| :: Packable(xs[i])
  {
    if xs == [] then [] else StrBytes(xs[0]) + ListBytes(xs[1..])
  }

  lemma {:induction false} ListBytesSnoc(xs: seq<Text>, x: Text)
    requires forall i | 0 <= i < |xs| :: Packable(xs[i])
    requires Packable(x)
    ensures ListBytes(xs + [x]) == ListBytes(xs) + StrBytes(x)
  {
    if xs == [] {
      assert [x][1..] == [];
    } else {
      assert (xs + [x])[1..] == xs[1..] + [x];
      ListBytesSnoc(xs[1..], x);
    }
  }

  /** A list field: a 1-byte count, then the strings. */
  function ListField(xs: seq<Text>): (r: Text)
    requires ListPackable(xs)
    ensures |r| >= 1 && r[0] == |xs|
  {
    [|xs|] + ListBytes(xs)
  }

  function OrZero(x: Option<int>): int { if x.Some? then x.value else 0 }

  function OrEmptyText(x: Option<Text>): Text { if x.Some? then x.value else [] }

  function OrEmptyList(x: Option<seq<Text>>): seq<Text> { if x.Some? then x.value else [] }

  /** Every number, string and list of the message fits its field. */
  predicate Encodable(m: ChatMessage)
  {
    && FitsU32(OrZero(m.messageId))
    && Packable(m.username)
    && Packable(m.content)
    && ListPackable(OrEmptyList(m.recipients))
    && FitsU32(OrZero(m.fetchCount))
    && Packable(OrEmptyText(m.password))
    && ListPackable(OrEmptyList(m.activeUsers))
    && FitsU32(OrZero(m.unreadCount))
  }

  /** The payload layout: id, username, content, timestamp, recipients, fetch count, password, active users, unread count. */
  function Payload(m: ChatMessage): Text
    requires Encodable(m)
  {
    U32(OrZero(m.messageId)) + StrBytes(m.username) + StrBytes(m.content) + m.timestamp
    + ListField(OrEmptyList(m.recipients))
    + U32(OrZero(m.fetchCount)) + StrBytes(OrEmptyText(m.password))
    + ListField(OrEmptyList(m.activeUsers))
    + U32(OrZero(m.unreadCount))
  }

  /** serialize_message, as a function of the message. */
  function EncodeMessage(m: ChatMessage): (r: Result<Text, CodecError>)
    ensures r == Err(ContentTooLarge) <==> |m.content| > MAX_CONTENT
    ensures r.Ok? <==> |m.content| <= MAX_CONTENT && Encodable(m) && |Payload(m)| < U32_LIMIT
    ensures r.Ok? ==>
              && |r.value| == HEADER_LEN + |Payload(m)|
              && r.value[0] == TypeTag(m.messageType)
              && r.value[1..5] == U32(|Payload(m)|)
              && r.value[5..] == Payload(m)
  {
    if |m.content| > MAX_CONTENT then Err(ContentTooLarge)
    else if !Encodable(m) then Err(PackError)
    else
      var p := Payload(m);
      if |p| >= U32_LIMIT then Err(PackError)
      else
        var f := [TypeTag(m.messageType)] + U32(|p|) + p;
        assert f[1..5] == U32(|p|) && f[5..] == p;
        Ok(f)
  }

  /** The list part of serialize_message: the count byte, then each string in turn. */
  method PackList(xs: seq<Text>) returns (r: Result<Text, CodecError>)
    ensures r.Ok? <==> ListPackable(xs)
    ensures r.Ok? ==> r.value == ListField(xs)
  {
    if |xs| >= 256 {
      return Err(PackError);
    }
    var out := [|xs|];
    for i := 0 to |xs|
      invariant forall j | 0 <= j < i :: Packable(xs[j])
      invariant out == [|xs|] + ListBytes(xs[..i])
    {
      if !Packable(xs[i]) {
        return Err(PackError);
      }
      ListBytesSnoc(xs[..i], xs[i]);
      assert xs[..i + 1] == xs[..i] + [xs[i]];
      out := out + StrBytes(xs[i]);
    }
    assert xs[..|xs|] == xs;
    r := Ok(out);
  }

  /** serialize_message: the payload is built field by field. */
  method SerializeMessage(m: ChatMessage) returns (r: Result<Text, CodecError>)
    ensures r == EncodeMessage(m)
  {
    if |m.content| > MAX_CONTENT {
      return Err(ContentTooLarge);
    }
    var id := OrZero(m.messageId);
    if !FitsU32(id) || !Packable(m.username) || !Packable(m.content) {
      return Err(PackError);
    }
    var payload := U32(id) + StrBytes(m.username) + StrBytes(m.content) + m.timestamp;
    var recipients := PackList(OrEmptyList(m.recipients));
    if recipients.Err? {
      return Err(PackError);
    }
    payload := payload + recipients.value;
    var fetchCount := OrZero(m.fetchCount);
    var password := OrEmptyText(m.password);
    if !FitsU32(fetchCount) || !Packable(password) {
      return Err(PackError);
    }
    payload := payload + U32(fetchCount) + StrBytes(password);
    var activeUsers := PackList(OrEmptyList(m.activeUsers));
    if activeUsers.Err? {
      return Err(PackError);
    }
    payload := payload + activeUsers.value;
    var unread := OrZero(m.unreadCount);
    if !FitsU32(unread) {
      return Err(PackError);
    }
    payload := payload + U32(unread);
    assert payload == Payload(m);
    if |payload| >= U32_LIMIT {
      return Err(PackError);
    }
    r := Ok([TypeTag(m.messageType)] + U32(|payload|) + payload);
  }

  // ---------------------------------------------------------------------
  // Field decodings, threading an offset through the bytes
  // ---------------------------------------------------------------------

  function ReadByte(data: Text, off: nat): (r: Result<(byte, nat), CodecError>)
    ensures r.Ok? <==> off < |data|
    ensures r.Ok? ==> r.value == (data[off], off + 1)
  {
    if off < |data| then Ok((data[off], off + 1)) else Err(Truncated)
  }

  /** struct.unpack_from("!I", data, off) */
  function ReadU32(data: Text, off: nat): (r: Result<(nat, nat), CodecError>)
    ensures r.Ok? <==> off + 4 <= |data|
  {
    if off + 4 <= |data| then Ok((FromBE(data[off..off + 4]), off + 4)) else Err(Truncated)
  }

  /** struct.unpack_from("!d", data, off), kept as its 8 bytes. */
  function ReadStamp(data: Text, off: nat): (r: Result<(Stamp, nat), CodecError>)
    ensures r.Ok? <==> off + 8 <= |data|
    ensures r.Ok? ==> r.value == (data[off..off + 8], off + 8)
  {
    if off + 8 <= |data| then Ok((data[off..off + 8], off + 8)) else Err(Truncated)
  }

  /**
   * deserialize_string: a length, then that many bytes. A slice that runs
   * past the end is cut short, as Python slicing is, while the returned
   * offset still moves by the full declared length.
   */
  function ReadString(data: Text, off: nat): (r: Result<(Text, nat), CodecError>)
    ensures r.Ok? <==> off + 4 <= |data|
  {
    var n :- ReadU32(data, off);
    var stop := if n.1 + n.0 <= |data| then n.1 + n.0 else |data|;
    Ok((data[n.1..stop], n.1 + n.0))
  }

  /** count strings, one after the other. */
  function ReadStrings(data: Text, off: nat, count: nat): Result<(seq<Text>, nat), CodecError>
    decreases count
  {
    if count == 0 then Ok(([], off))
    else
      var first :- ReadString(data, off);
      var rest :- ReadStrings(data, first.1, count - 1);
      Ok(([first.0] + rest.0, rest.1))
  }

  /** A list field: the count byte, then that many strings. */
  function ReadList(data: Text, off: nat): Result<(seq<Text>, nat), CodecError>
  {
    var count :- ReadByte(data, off);
    ReadStrings(data, count.1, count.0)
  }

  /** Reading one string more extends the list read so far by that string. */
  lemma {:induction false} ReadStringsSnoc(data: Text, off: nat, count: nat)
    decreases count
    requires ReadStrings(data, off, count).Ok?
    ensures var (xs, o) := ReadStrings(data, off, count).value;
      && |xs| == count
      && ReadStrings(data, off, count + 1) ==
         match ReadString(data, o)
         case Err(e) => Err(e)
         case Ok(s) => Ok((xs + [s.0], s.1))
  {
    if count == 0 {
      match ReadString(data, off)
      case Err(e) =>
      case Ok(s) =>
        assert ReadStrings(data, s.1, 0) == Ok(([], s.1));
        assert [s.0] + [] == [] + [s.0];
    } else {
      var first := ReadString(data, off).value;
      ReadStringsSnoc(data, first.1, count - 1);
      var rest := ReadStrings(data, first.1, count - 1).value;
      match ReadString(data, rest.1)
      case Err(e) =>
      case Ok(s) =>
        assert [first.0] + (rest.0 + [s.0]) == ([first.0] + rest.0) + [s.0];
    }
  }

  /** Once a prefix of the list fails to read, the whole list fails the same way. */
  lemma {:induction false} ReadStringsFailurePersists(data: Text, off: nat, i: nat, count: nat)
    decreases i
    requires i <= count && ReadStrings(data, off, i).Err?
    ensures ReadStrings(data, off, count) == ReadStrings(data, off, i)
  {
    var first := ReadString(data, off);
    if first.Ok? {
      ReadStringsFailurePersists(data, first.value.1, i - 1, count - 1);
    }
  }

  function NoneIfZero(n: int): Option<int> { if n == 0 then None else Some(n) }

  function NoneIfEmptyText(s: Text): Option<Text> { if s == [] then None else Some(s) }

  function NoneIfEmptyList(xs: seq<Text>): Option<seq<Text>> { if xs == [] then None else Some(xs) }

  /** The raw field values of a binary message, before normalisation. */
  datatype Fields = Fields(
    id: nat, username: Text, content: Text, stamp: Stamp,
    recipients: seq<Text>, fetchCount: nat, password: Text,
    activeUsers: seq<Text>, unread: nat)

  /** The fixed-size front of the payload: id, username, content, timestamp; and the offset after them. */
  function DecodeHead(data: Text): Result<(nat, Text, Text, Stamp, nat), CodecError>
  {
    var id :- ReadU32(data, HEADER_LEN);
    var username :- ReadString(data, id.1);
    var content :- ReadString(data, username.1);
    var stamp :- ReadStamp(data, content.1);
    Ok((id.0, username.0, content.0, stamp.0, stamp.1))
  }

  /** The rest of the payload from off: recipients, fetch count, password, active users, unread count. */
  function DecodeTail(data: Text, off: nat): Result<(seq<Text>, nat, Text, seq<Text>, nat), CodecError>
  {
    var recipients :- ReadList(data, off);
    var fetchCount :- ReadU32(data, recipients.1);
    var password :- ReadString(data, fetchCount.1);
    var activeUsers :- ReadList(data, password.1);
    var unread :- ReadU32(data, activeUsers.1);
    Ok((recipients.0, fetchCount.0, password.0, activeUsers.0, unread.0))
  }

  function DecodeFields(data: Text): Result<Fields, CodecError>
  {
    var (id, username, content, stamp, off) :- DecodeHead(data);
    var (recipients, fetchCount, password, activeUsers, unread) :- DecodeTail(data, off);
    Ok(Fields(id, username, content, stamp, recipients, fetchCount, password, activeUsers, unread))
  }

  /** The normalisation step of deserialize_message: zero, empty text and empty lists become None. */
  function Assemble(kind: MessageType, f: Fields): ChatMessage
  {
    ChatMessage(
      username := f.username,
      content := f.content,
      timestamp := f.stamp,
      messageType := kind,
      recipients := NoneIfEmptyList(f.recipients),
      messageId := NoneIfZero(f.id),
      fetchCount := NoneIfZero(f.fetchCount),
      messageIds := None,
      password := NoneIfEmptyText(f.password),
      activeUsers := NoneIfEmptyList(f.activeUsers),
      unreadCount := NoneIfZero(f.unread))
  }

  /** deserialize_message: an unknown tag reads as a chat message. */
  function DecodeMessage(data: Text): Result<ChatMessage, CodecError>
  {
    if |data| == 0 then Err(Truncated)
    else
      var fields :- DecodeFields(data);
      Ok(Assemble(TagType(data[0]).GetOr(Chat), fields))
  }

  /** The list part of deserialize_message: a count byte, then that many strings read in a loop. */
  method UnpackList(data: Text, off: nat) returns (r: Result<(seq<Text>, nat), CodecError>)
    ensures r == ReadList(data, off)
  {
    if off >= |data| {
      return Err(Truncated);
    }
    var count := data[off];
    var start := off + 1;
    var offset := start;
    var xs: seq<Text> := [];
    for i := 0 to count
      invariant ReadStrings(data, start, i) == Ok((xs, offset))
    {
      ReadStringsSnoc(data, start, i);
      var s := ReadString(data, offset);
      if s.Err? {
        ReadStringsFailurePersists(data, start, i + 1, count);
        return Err(s.error);
      }
      xs := xs + [s.value.0];
      offset := s.value.1;
    }
    r := Ok((xs, offset));
  }

  /** deserialize_message: the offset is threaded through the fields. */
  method DeserializeMessage(data: Text) returns (r: Result<ChatMessage, CodecError>)
    ensures r == DecodeMessage(data)
  {
    if |data| == 0 {
      return Err(Truncated);
    }
    var kind := TagType(data[0]).GetOr(Chat);
    var id :- ReadU32(data, HEADER_LEN);
    var username :- ReadString(data, id.1);
    var content :- ReadString(data, username.1);
    var stamp :- ReadStamp(data, content.1);
    var recipients :- UnpackList(data, stamp.1);
    var fetchCount :- ReadU32(data, recipients.1);
    var password :- ReadString(data, fetchCount.1);
    var activeUsers :- UnpackList(data, password.1);
    var unread :- ReadU32(data, activeUsers.1);
    r := Ok(ChatMessage(
      username := username.0,
      content := content.0,
      timestamp := stamp.0,
      messageType := kind,
      recipients := NoneIfEmptyList(recipients.0),
      messageId := NoneIfZero(id.0),
      fetchCount := NoneIfZero(fetchCount.0),
      messageIds := None,
      password := NoneIfEmptyText(password.0),
      activeUsers := NoneIfEmptyList(activeUsers.0),
      unreadCount := NoneIfZero(unread.0)));
  }

  // ---------------------------------------------------------------------
  // Reading back what was written
  // ---------------------------------------------------------------------

  lemma ReadU32Suffix(data: Text, off: nat, n: nat, rest: Text)
    requires off <= |data| && n < U32_LIMIT && data[off..] == U32(n) + rest
    ensures off + 4 <= |data| && ReadU32(data, off) == Ok((n, off + 4)) && data[off + 4..] == rest
  {
    assert data[off..off + 4] == data[off..][..4];
    U32RoundTrip(n);
    assert data[off + 4..] == data[off..][4..];
  }

  /** deserialize_string at the start of a serialize_string reads back the string and the offset just past it. */
  lemma ReadStringSuffix(data: Text, off: nat, s: Text, rest: Text)
    requires off <= |data| && Packable(s) && data[off..] == StrBytes(s) + rest
    ensures off + 4 + |s| <= |data| && ReadString(data, off) == Ok((s, off + 4 + |s|))
    ensures data[off + 4 + |s|..] == rest
  {
    var w := StrBytes(s);
    StrBytesPrefix(s);
    assert data[off..off + 4] == w[..4];
    assert data[off + 4..off + 4 + |s|] == w[4..];
    assert data[off + 4 + |s|..] == data[off..][4 + |s|..];
  }

  /** The same, phrased with what precedes and follows the string. */
  lemma ReadStringAt(pre: Text, s: Text, post: Text)
    requires Packable(s)
    ensures ReadString(pre + StrBytes(s) + post, |pre|) == Ok((s, |pre| + 4 + |s|))
  {
    var data := pre + StrBytes(s) + post;
    assert data[|pre|..] == StrBytes(s) + post;
    ReadStringSuffix(data, |pre|, s, post);
  }

  lemma ReadStampSuffix(data: Text, off: nat, t: Stamp, rest: Text)
    requires off <= |data| && data[off..] == t + rest
    ensures off + 8 <= |data| && ReadStamp(data, off) == Ok((t, off + 8)) && data[off + 8..] == rest
  {
    assert data[off..off + 8] == data[off..][..8];
    assert data[off + 8..] == data[off..][8..];
  }

  lemma ReadByteSuffix(data: Text, off: nat, b: byte, rest: Text)
    requires off <= |data| && data[off..] == [b] + rest
    ensures off + 1 <= |data| && ReadByte(data, off) == Ok((b, off + 1)) && data[off + 1..] == rest
  {
    assert data[off] == data[off..][0];
    assert data[off + 1..] == data[off..][1..];
  }

  lemma {:induction false} ReadStringsSuffix(data: Text, off: nat, xs: seq<Text>, rest: Text)
    decreases xs
    requires forall i | 0 <= i < |xs| :: Packable(xs[i])
    requires off <= |data| && data[off..] == ListBytes(xs) + rest
    ensures ReadStrings(data, off, |xs|) == Ok((xs, off + |ListBytes(xs)|))
    ensures off + |ListBytes(xs)| <= |data| && data[off + |ListBytes(xs)|..] == rest
  {
    if xs != [] {
      var tail := ListBytes(xs[1..]) + rest;
      assert data[off..] == StrBytes(xs[0]) + tail;
      ReadStringSuffix(data, off, xs[0], tail);
      var next := off + 4 + |xs[0]|;
      ReadStringsSuffix(data, next, xs[1..], rest);
      assert [xs[0]] + xs[1..] == xs;
    }
  }

  lemma ListFieldSuffix(data: Text, off: nat, xs: seq<Text>, rest: Text)
    requires ListPackable(xs)
    requires off <= |data| && data[off..] == ListField(xs) + rest
    ensures ReadList(data, off) == Ok((xs, off + |ListField(xs)|))
    ensures off + |ListField(xs)| <= |data| && data[off + |ListField(xs)|..] == rest
  {
    ReadByteSuffix(data, off, |xs|, ListBytes(xs) + rest);
    ReadStringsSuffix(data, off + 1, xs, rest);
  }

  /** The payload, read field by field from the front. */
  lemma PayloadNested(m: ChatMessage)
    requires Encodable(m)
    ensures Payload(m) ==
      U32(OrZero(m.messageId)) + (StrBytes(m.username) + (StrBytes(m.content) + (m.timestamp
      + (ListField(OrEmptyList(m.recipients))
      + (U32(OrZero(m.fetchCount)) + (StrBytes(OrEmptyText(m.password))
      + (ListField(OrEmptyList(m.activeUsers))
      + U32(OrZero(m.unreadCount)))))))))
  {
  }

  /** What a message looks like after a trip through the codec. */
  function Normalize(m: ChatMessage): (n: ChatMessage)
    ensures n.messageIds == None
    ensures n.messageId.Some? <==> m.messageId.Some? && m.messageId.value != 0
    ensures n.recipients.Some? <==> NonEmpty(m.recipients)
    ensures n.password.Some? <==> HasText(m.password)
  {
    m.(recipients := NoneIfEmptyList(OrEmptyList(m.recipients)),
       messageId := NoneIfZero(OrZero(m.messageId)),
       fetchCount := NoneIfZero(OrZero(m.fetchCount)),
       messageIds := None,
       password := NoneIfEmptyText(OrEmptyText(m.password)),
       activeUsers := NoneIfEmptyList(OrEmptyList(m.activeUsers)),
       unreadCount := NoneIfZero(OrZero(m.unreadCount)))
  }

  /** The fields a message is written with. */
  function FieldsOf(m: ChatMessage): Fields
    requires Encodable(m)
  {
    Fields(OrZero(m.messageId), m.username, m.content, m.timestamp,
           OrEmptyList(m.recipients), OrZero(m.fetchCount), OrEmptyText(m.password),
           OrEmptyList(m.activeUsers), OrZero(m.unreadCount))
  }

  lemma HeadRoundTrip(data: Text, id: nat, username: Text, content: Text, stamp: Stamp, rest: Text, off: nat)
    requires HEADER_LEN <= |data| && id < U32_LIMIT && Packable(username) && Packable(content)
    requires data[HEADER_LEN..] == U32(id) + (StrBytes(username) + (StrBytes(content) + (stamp + rest)))
    requires off == HEADER_LEN + 4 + 4 + |username| + 4 + |content| + 8
    ensures DecodeHead(data) == Ok((id, username, content, stamp, off))
    ensures off <= |data| && data[off..] == rest
  {
    var o := HEADER_LEN;
    ReadU32Suffix(data, o, id, StrBytes(username) + (StrBytes(content) + (stamp + rest)));
    o := o + 4;
    ReadStringSuffix(data, o, username, StrBytes(content) + (stamp + rest));
    o := o + 4 + |username|;
    ReadStringSuffix(data, o, content, stamp + rest);
    o := o + 4 + |content|;
    ReadStampSuffix(data, o, stamp, rest);
  }

  lemma DecodeTailSteps(data: Text, off: nat, rs: seq<Text>, o1: nat, fc: nat, o2: nat, pw: Text, o3: nat, us: seq<Text>, o4: nat, un: nat, o5: nat)
    requires ReadList(data, off) == Ok((rs, o1)) && ReadU32(data, o1) == Ok((fc, o2))
    requires ReadString(data, o2) == Ok((pw, o3)) && ReadList(data, o3) == Ok((us, o4))
    requires ReadU32(data, o4) == Ok((un, o5))
    ensures DecodeTail(data, off) == Ok((rs, fc, pw, us, un))
  {
  }

  lemma DecodeFieldsSteps(data: Text, head: (nat, Text, Text, Stamp, nat), tail: (seq<Text>, nat, Text, seq<Text>, nat))
    requires DecodeHead(data) == Ok(head) && DecodeTail(data, head.4) == Ok(tail)
    ensures DecodeFields(data) == Ok(Fields(head.0, head.1, head.2, head.3, tail.0, tail.1, tail.2, tail.3, tail.4))
  {
  }

  lemma AfterPassword(data: Text, off: nat, us: seq<Text>, un: nat)
    requires ListPackable(us) && un < U32_LIMIT && off <= |data|
    requires data[off..] == ListField(us) + U32(un)
    ensures ReadList(data, off) == Ok((us, off + |ListField(us)|))
    ensures ReadU32(data, off + |ListField(us)|) == Ok((un, off + |ListField(us)| + 4))
  {
    ListFieldSuffix(data, off, us, U32(un));
    ReadU32Suffix(data, off + |ListField(us)|, un, []);
  }

  lemma AfterFetchCount(data: Text, off: nat, pw: Text, us: seq<Text>, un: nat)
    requires Packable(pw) && ListPackable(us) && un < U32_LIMIT && off <= |data|
    requires data[off..] == StrBytes(pw) + (ListField(us) + U32(un))
    ensures ReadString(data, off) == Ok((pw, off + 4 + |pw|))
    ensures var o := off + 4 + |pw|;
      && ReadList(data, o) == Ok((us, o + |ListField(us)|))
      && ReadU32(data, o + |ListField(us)|) == Ok((un, o + |ListField(us)| + 4))
  {
    ReadStringSuffix(data, off, pw, ListField(us) + U32(un));
    AfterPassword(data, off + 4 + |pw|, us, un);
  }

  lemma AfterRecipients(data: Text, off: nat, fc: nat, pw: Text, us: seq<Text>, un: nat)
    requires fc < U32_LIMIT && Packable(pw) && ListPackable(us) && un < U32_LIMIT && off <= |data|
    requires data[off..] == U32(fc) + (StrBytes(pw) + (ListField(us) + U32(un)))
    ensures ReadU32(data, off) == Ok((fc, off + 4))
    ensures ReadString(data, off + 4) == Ok((pw, off + 8 + |pw|))
    ensures var o := off + 8 + |pw|;
      && ReadList(data, o) == Ok((us, o + |ListField(us)|))
      && ReadU32(data, o + |ListField(us)|) == Ok((un, o + |ListField(us)| + 4))
  {
    ReadU32Suffix(data, off, fc, StrBytes(pw) + (ListField(us) + U32(un)));
    AfterFetchCount(data, off + 4, pw, us, un);
  }

  lemma TailRoundTrip(data: Text, off: nat, recipients: seq<Text>, fetchCount: nat, password: Text, activeUsers: seq<Text>, unread: nat)
    requires ListPackable(recipients) && ListPackable(activeUsers) && Packable(password)
    requires fetchCount < U32_LIMIT && unread < U32_LIMIT
    requires off <= |data|
    requires data[off..] == ListField(recipients) + (U32(fetchCount) + (StrBytes(password) + (ListField(activeUsers) + U32(unread))))
    ensures DecodeTail(data, off) == Ok((recipients, fetchCount, password, activeUsers, unread))
  {
    var o1 := off + |ListField(recipients)|;
    ListFieldSuffix(data, off, recipients, U32(fetchCount) + (StrBytes(password) + (ListField(activeUsers) + U32(unread))));
    AfterRecipients(data, o1, fetchCount, password, activeUsers, unread);
    var o3 := o1 + 8 + |password|;
    var o4 := o3 + |ListField(activeUsers)|;
    DecodeTailSteps(data, off, recipients, o1, fetchCount, o1 + 4, password, o3, activeUsers, o4, unread, o4 + 4);
  }

  /** A buffer whose payload part is the payload of m decodes to the fields of m. */
  lemma FieldsOfPayload(data: Text, m: ChatMessage)
    requires Encodable(m) && HEADER_LEN <= |data| && data[HEADER_LEN..] == Payload(m)
    ensures DecodeFields(data) == Ok(FieldsOf(m))
  {
    var tail := ListField(OrEmptyList(m.recipients)) + (U32(OrZero(m.fetchCount)) + (StrBytes(OrEmptyText(m.password))
      + (ListField(OrEmptyList(m.activeUsers)) + U32(OrZero(m.unreadCount)))));
    PayloadNested(m);
    var off := HEADER_LEN + 4 + 4 + |m.username| + 4 + |m.content| + 8;
    HeadRoundTrip(data, OrZero(m.messageId), m.username, m.content, m.timestamp, tail, off);
    TailRoundTrip(data, off, OrEmptyList(m.recipients), OrZero(m.fetchCount), OrEmptyText(m.password),
                  OrEmptyList(m.activeUsers), OrZero(m.unreadCount));
    var head := (OrZero(m.messageId), m.username, m.content, m.timestamp, off);
    assert DecodeHead(data) == Ok(head);
    var rest := (OrEmptyList(m.recipients), OrZero(m.fetchCount), OrEmptyText(m.password), OrEmptyList(m.activeUsers), OrZero(m.unreadCount));
    assert DecodeTail(data, head.4) == Ok(rest);
    DecodeFieldsSteps(data, head, rest);
  }

  /**
   * Every message the encoder accepts decodes back to itself, up to the
   * zero/empty-to-None normalisation and the dropped message_ids.
   */
  lemma MessageRoundTrip(m: ChatMessage)
    requires EncodeMessage(m).Ok?
    ensures DecodeMessage(EncodeMessage(m).value) == Ok(Normalize(m))
  {
    FieldsOfPayload(EncodeMessage(m).value, m);
    TagTypeOfTag(m.messageType);
  }

  // ---------------------------------------------------------------------
  // Frame extraction
  // ---------------------------------------------------------------------

  /** A complete frame the extractor accepts: known tag, declared length within the limit and matching. */
  predicate WellFormed(f: Text)
  {
    && |f| >= HEADER_LEN
    && f[0] < 12
    && FromBE(f[1..5]) == |f| - HEADER_LEN
    && |f| - HEADER_LEN <= MAX_PAYLOAD
  }

  /**
   * extract_message: take one frame off the front of the buffer, or wait
   * for more bytes, or drop bytes to resynchronise. It only ever removes
   * bytes from the front, and what it hands out is a well-formed frame.
   */
  function ExtractFrame(buf: Text): (r: (Option<Text>, Text))
    ensures |r.1| <= |buf| && r.1 == buf[|buf| - |r.1|..]
    ensures r.0.Some? ==> r.0.value + r.1 == buf && WellFormed(r.0.value)
  {
    if |buf| < HEADER_LEN then (None, buf)
    else if buf[0] >= 12 then (None, buf[1..])
    else
      var n := FromBE(buf[1..5]);
      if n > MAX_PAYLOAD then (None, buf[5..])
      else if |buf| < HEADER_LEN + n then (None, buf)
      else
        var f := buf[..HEADER_LEN + n];
        assert f[1..5] == buf[1..5];
        assert f + buf[HEADER_LEN + n..] == buf;
        (Some(f), buf[HEADER_LEN + n..])
  }

  /**
   * A header byte that names no message type is discarded on its own and
   * the cut reports no frame, even when a complete frame follows it.
   */
  lemma ResyncWaitsOnFrame(f: Text)
    requires WellFormed(f)
    ensures ExtractFrame([12] + f) == (None, f)
    ensures ExtractFrame(f) == (Some(f), [])
  {
    assert ([12] + f)[1..] == f;
    ExtractWellFormed(f, []);
    assert f + [] == f;
  }

  /** A well-formed frame at the front of the buffer is extracted exactly, whatever follows it. */
  lemma ExtractWellFormed(f: Text, rest: Text)
    requires WellFormed(f)
    ensures ExtractFrame(f + rest) == (Some(f), rest)
  {
    var buf := f + rest;
    assert buf[1..5] == f[1..5];
    assert buf[..|f|] == f;
  }

  /** No proper prefix of a well-formed frame yields a frame, and nothing is dropped while waiting. */
  lemma ExtractWaitsOnPrefix(f: Text, k: nat)
    requires WellFormed(f) && k < |f|
    ensures ExtractFrame(f[..k]) == (None, f[..k])
  {
    if k >= HEADER_LEN {
      assert f[..k][1..5] == f[1..5];
    }
  }

  /** A byte that is no known tag is skipped on its own: the frame behind it is then extracted intact. */
  lemma ExtractResynchronises(g: byte, f: Text, rest: Text)
    requires g >= 12 && WellFormed(f)
    ensures ExtractFrame([g] + f + rest) == (None, f + rest)
    ensures ExtractFrame(f + rest) == (Some(f), rest)
  {
    assert ([g] + f + rest)[1..] == f + rest;
    ExtractWellFormed(f, rest);
  }

  /** A header with a known tag that declares more than the limit is dropped, exactly its 5 bytes. */
  lemma ExtractDropsOversizeHeader(h: Text, rest: Text)
    requires |h| == HEADER_LEN && h[0] < 12 && FromBE(h[1..5]) > MAX_PAYLOAD
    ensures ExtractFrame(h + rest) == (None, rest)
  {
    var buf := h + rest;
    assert buf[1..5] == h[1..5];
    assert buf[5..] == rest;
  }

  /** JSON's frame_message adds a newline; the binary protocol's is the identity, the frame being complete already. */
  function FrameMessage(data: Text): (r: Text)
    ensures |r| == |data|
  {
    data
  }

  // ---------------------------------------------------------------------
  // The size limits of encoder and extractor (see Findings in README)
  // ---------------------------------------------------------------------

  /** What serialize_message produces, when the payload is within the limit, is one well-formed frame. */
  lemma EncodedFrameExtracts(m: ChatMessage, rest: Text)
    requires EncodeMessage(m).Ok? && |Payload(m)| <= MAX_PAYLOAD
    ensures ExtractFrame(EncodeMessage(m).value + rest) == (Some(EncodeMessage(m).value), rest)
  {
    TagTypeOfTag(m.messageType);
    U32RoundTrip(|Payload(m)|);
    ExtractWellFormed(EncodeMessage(m).value, rest);
  }

  /**
   * As written, serialize_message bounds the content, not the payload: a
   * frame it produces whose payload is over the limit loses its header at
   * the receiver, and the payload bytes are then read as new frames.
   */
  lemma OversizePayloadDropped(m: ChatMessage, rest: Text)
    requires EncodeMessage(m).Ok? && |Payload(m)| > MAX_PAYLOAD
    ensures var f := EncodeMessage(m).value;
      ExtractFrame(f + rest) == (None, f[HEADER_LEN..] + rest)
  {
    var f := EncodeMessage(m).value;
    TagTypeOfTag(m.messageType);
    U32RoundTrip(|Payload(m)|);
    assert f == f[..HEADER_LEN] + f[HEADER_LEN..];
    assert f[..HEADER_LEN][1..5] == f[1..5];
    assert f + rest == f[..HEADER_LEN] + (f[HEADER_LEN..] + rest);
    ExtractDropsOversizeHeader(f[..HEADER_LEN], f[HEADER_LEN..] + rest);
  }

  /** A chat message whose content is exactly at the content limit. */
  function ContentAtLimit(): (m: ChatMessage)
    ensures |m.content| == MAX_CONTENT
  {
    NewMessage([], seq(MAX_CONTENT, _ => 0), [0, 0, 0, 0, 0, 0, 0, 0])
  }

  /** The content check lets it through, yet its payload is over the frame limit. */
  lemma ContentAtLimitIsDropped()
    ensures EncodeMessage(ContentAtLimit()).Ok?
    ensures |Payload(ContentAtLimit())| == MAX_CONTENT + 34 > MAX_PAYLOAD
  {
    var m := ContentAtLimit();
    assert Encodable(m);
    assert |ListField([])| == 1;
  }

  /** The frame-size guard the extractor evidently expects every encoder to apply. */
  function CheckFrameSize(r: Result<Text, CodecError>): (c: Result<Text, CodecError>)
    ensures r.Err? ==> c == r
    ensures c.Ok? <==> r.Ok? && |r.value| <= HEADER_LEN + MAX_PAYLOAD
    ensures c.Ok? ==> c == r
  {
    if r.Ok? && |r.value| > HEADER_LEN + MAX_PAYLOAD then Err(FrameTooLarge) else r
  }

  /** serialize_message with the payload bounded as the receiver bounds it. */
  function EncodeFrame(m: ChatMessage): (r: Result<Text, CodecError>)
    ensures r.Ok? <==> EncodeMessage(m).Ok? && |Payload(m)| <= MAX_PAYLOAD
    ensures r.Ok? ==> r == EncodeMessage(m)
  {
    CheckFrameSize(EncodeMessage(m))
  }

  /** Every frame the corrected encoder produces is extracted whole and decodes back to the message. */
  lemma EncodeFrameRoundTrip(m: ChatMessage, rest: Text)
    requires EncodeFrame(m).Ok?
    ensures ExtractFrame(EncodeFrame(m).value + rest) == (Some(EncodeFrame(m).value), rest)
    ensures DecodeMessage(EncodeFrame(m).value) == Ok(Normalize(m))
  {
    EncodedFrameExtracts(m, rest);
    MessageRoundTrip(m);
  }

  // ---------------------------------------------------------------------
  // Server responses
  // ---------------------------------------------------------------------

  function StatusByte(s: Status): (b: byte)
    ensures b == 0 <==> s == Success
  {
    if s == Success then 0 else 1
  }

  function StatusOf(b: byte): (s: Status)
    ensures s == Success <==> b == 0
  {
    if b == 0 then Success else Error
  }

  /** The embedded message part of a response payload: a flag byte, then the message's own frame. */
  function EncodeEmbedded(data: Option<ChatMessage>): (r: Result<Text, CodecError>)
    ensures data.None? ==> r == Ok([0])
    ensures data.Some? ==> (r.Ok? <==> EncodeMessage(data.value).Ok?)
    ensures data.Some? && r.Ok? ==> r.value == [1] + EncodeMessage(data.value).value
  {
    if data.None? then Ok([0])
    else
      var f :- EncodeMessage(data.value);
      Ok([1] + f)
  }

  /** serialize_response: status byte, message string, unread count, then the flagged embedded message. */
  function EncodeResponse(resp: ServerResponse): (r: Result<Text, CodecError>)
    ensures r.Ok? ==> |r.value| >= HEADER_LEN && r.value[0] == TypeTag(MessageType.ServerResponse)
    ensures r.Ok? <==>
              && Packable(resp.message) && FitsU32(OrZero(resp.unreadCount))
              && EncodeEmbedded(resp.data).Ok?
              && 1 + 4 + |resp.message| + 4 + |EncodeEmbedded(resp.data).value| < U32_LIMIT
  {
    if !Packable(resp.message) || !FitsU32(OrZero(resp.unreadCount)) then Err(PackError)
    else
      var embedded :- EncodeEmbedded(resp.data);
      var p := [StatusByte(resp.status)] + StrBytes(resp.message) + U32(OrZero(resp.unreadCount)) + embedded;
      if |p| >= U32_LIMIT then Err(PackError)
      else Ok([TypeTag(MessageType.ServerResponse)] + U32(|p|) + p)
  }

  /** serialize_response, appending to the payload field by field. */
  method SerializeResponse(resp: ServerResponse) returns (r: Result<Text, CodecError>)
    ensures r == EncodeResponse(resp)
  {
    var payload := [StatusByte(resp.status)];
    if !Packable(resp.message) {
      return Err(PackError);
    }
    payload := payload + StrBytes(resp.message);
    var unread := OrZero(resp.unreadCount);
    if !FitsU32(unread) {
      return Err(PackError);
    }
    payload := payload + U32(unread);
    if resp.data.Some? {
      var chat := SerializeMessage(resp.data.value);
      if chat.Err? {
        return Err(chat.error);
      }
      assert EncodeEmbedded(resp.data) == Ok([1] + chat.value);
      payload := payload + ([1] + chat.value);
    } else {
      payload := payload + [0];
    }
    assert payload == [StatusByte(resp.status)] + StrBytes(resp.message) + U32(unread) + EncodeEmbedded(resp.data).value;
    if |payload| >= U32_LIMIT {
      return Err(PackError);
    }
    r := Ok([TypeTag(MessageType.ServerResponse)] + U32(|payload|) + payload);
  }

  /** The flagged tail of a response: only a frame the extractor accepts is decoded; otherwise no data. */
  function DecodeEmbedded(flag: byte, rest: Text): Result<Option<ChatMessage>, CodecError>
  {
    if flag != 1 then Ok(None)
    else
      match ExtractFrame(rest).0
      case None => Ok(None)
      case Some(f) =>
        var m :- DecodeMessage(f);
        Ok(Some(m))
  }

  /** deserialize_response */
  function DecodeResponse(data: Text): Result<ServerResponse, CodecError>
  {
    var status :- ReadByte(data, HEADER_LEN);
    var message :- ReadString(data, status.1);
    var unread :- ReadU32(data, message.1);
    var flag :- ReadByte(data, unread.1);
    var chat :- DecodeEmbedded(flag.0, data[flag.1..]);
    Ok(Response(StatusOf(status.0), message.0, chat, NoneIfZero(unread.0)))
  }

  /** The flagged tail of deserialize_response. */
  method DeserializeEmbedded(flag: byte, rest: Text) returns (r: Result<Option<ChatMessage>, CodecError>)
    ensures r == DecodeEmbedded(flag, rest)
  {
    r := Ok(None);
    if flag == 1 {
      var (embedded, _) := ExtractFrame(rest);
      if embedded.Some? {
        var m :- DeserializeMessage(embedded.value);
        r := Ok(Some(m));
      }
    }
  }

  /** deserialize_response, threading the offset. */
  method DeserializeResponse(data: Text) returns (r: Result<ServerResponse, CodecError>)
    ensures r == DecodeResponse(data)
  {
    var status :- ReadByte(data, HEADER_LEN);
    var message :- ReadString(data, status.1);
    var unread :- ReadU32(data, message.1);
    var flag :- ReadByte(data, unread.1);
    var chat :- DeserializeEmbedded(flag.0, data[flag.1..]);
    DecodeResponseSteps(data, status.0, status.1, message.0, message.1, unread.0, unread.1, flag.0, flag.1, chat);
    r := Ok(Response(StatusOf(status.0), message.0, chat, NoneIfZero(unread.0)));
  }

  /** What a response looks like after a trip through the codec. */
  function ResponseAfterTrip(resp: ServerResponse): ServerResponse
    requires FitsU32(OrZero(resp.unreadCount))
  {
    Response(
      resp.status,
      resp.message,
      if resp.data.Some? && EncodeFrame(resp.data.value).Ok? then Some(Normalize(resp.data.value)) else None,
      NoneIfZero(OrZero(resp.unreadCount)))
  }

  lemma DecodeResponseSteps(data: Text, sb: byte, o1: nat, msg: Text, o2: nat, un: nat, o3: nat, flag: byte, o4: nat, chat: Option<ChatMessage>)
    requires ReadByte(data, HEADER_LEN) == Ok((sb, o1)) && ReadString(data, o1) == Ok((msg, o2))
    requires ReadU32(data, o2) == Ok((un, o3)) && ReadByte(data, o3) == Ok((flag, o4))
    requires DecodeEmbedded(flag, data[o4..]) == Ok(chat)
    ensures DecodeResponse(data) == Ok(Response(StatusOf(sb), msg, chat, NoneIfZero(un)))
  {
  }

  /** The embedded part decodes to the normalised message when its frame is within the limit, and to no data otherwise. */
  lemma EmbeddedRoundTrip(data: Option<ChatMessage>)
    requires EncodeEmbedded(data).Ok?
    ensures var e := EncodeEmbedded(data).value;
      DecodeEmbedded(e[0], e[1..]) == Ok(if data.Some? && EncodeFrame(data.value).Ok? then Some(Normalize(data.value)) else None)
  {
    var e := EncodeEmbedded(data).value;
    if data.Some? {
      var m := data.value;
      var f := EncodeMessage(m).value;
      assert e[1..] == f;
      if |Payload(m)| <= MAX_PAYLOAD {
        EncodedFrameExtracts(m, []);
        assert f + [] == f;
        MessageRoundTrip(m);
      } else {
        OversizePayloadDropped(m, []);
        assert f + [] == f;
      }
    }
  }

  /** The fixed fields of a response payload read back, leaving the flagged tail. */
  lemma ResponseFieldsSuffix(data: Text, sb: byte, msg: Text, un: nat, e: Text)
    requires HEADER_LEN <= |data| && Packable(msg) && un < U32_LIMIT && |e| >= 1
    requires data[HEADER_LEN..] == [sb] + (StrBytes(msg) + (U32(un) + e))
    ensures var o2 := HEADER_LEN + 1 + 4 + |msg|;
      && ReadByte(data, HEADER_LEN) == Ok((sb, HEADER_LEN + 1))
      && ReadString(data, HEADER_LEN + 1) == Ok((msg, o2))
      && ReadU32(data, o2) == Ok((un, o2 + 4))
      && ReadByte(data, o2 + 4) == Ok((e[0], o2 + 5))
      && o2 + 5 <= |data| && data[o2 + 5..] == e[1..]
  {
    var o := HEADER_LEN;
    ReadByteSuffix(data, o, sb, StrBytes(msg) + (U32(un) + e));
    ReadStringSuffix(data, o + 1, msg, U32(un) + e);
    var o2 := o + 1 + 4 + |msg|;
    ReadU32Suffix(data, o2, un, e);
    assert e == [e[0]] + e[1..];
    ReadByteSuffix(data, o2 + 4, e[0], e[1..]);
  }

  /** The payload fields of a response, in the order serialize_response writes them. */
  function ResponseFields(resp: ServerResponse, e: Text): Text
    requires Packable(resp.message) && FitsU32(OrZero(resp.unreadCount))
  {
    [StatusByte(resp.status)] + (StrBytes(resp.message) + (U32(OrZero(resp.unreadCount)) + e))
  }

  /** An encoded response is its header, then its fields. */
  lemma ResponseFrame(resp: ServerResponse)
    requires EncodeResponse(resp).Ok?
    ensures var p := ResponseFields(resp, EncodeEmbedded(resp.data).value);
      EncodeResponse(resp).value == [TypeTag(MessageType.ServerResponse)] + U32(|p|) + p
  {
  }

  /** The payload of an encoded response, field by field. */
  lemma ResponsePayload(resp: ServerResponse)
    requires EncodeResponse(resp).Ok?
    ensures EncodeResponse(resp).value[HEADER_LEN..]
         == [StatusByte(resp.status)] + (StrBytes(resp.message) + (U32(OrZero(resp.unreadCount)) + EncodeEmbedded(resp.data).value))
  {
    var e := EncodeEmbedded(resp.data).value;
    var p := ResponseFields(resp, e);
    var h := [TypeTag(MessageType.ServerResponse)] + U32(|p|);
    ResponseFrame(resp);
    assert (h + p)[|h|..] == p;
  }

  /**
   * Response round trip: status, message text and unread count survive
   * (zero reading back as None), and the embedded message survives,
   * normalised, exactly when its own frame is within the limit.
   */
  lemma ResponseRoundTrip(resp: ServerResponse)
    requires EncodeResponse(resp).Ok?
    ensures DecodeResponse(EncodeResponse(resp).value) == Ok(ResponseAfterTrip(resp))
  {
    var f := EncodeResponse(resp).value;
    var e := EncodeEmbedded(resp.data).value;
    var un := OrZero(resp.unreadCount);
    var sb := StatusByte(resp.status);
    ResponsePayload(resp);
    ResponseFieldsSuffix(f, sb, resp.message, un, e);
    EmbeddedRoundTrip(resp.data);
    var o2 := HEADER_LEN + 1 + 4 + |resp.message|;
    DecodeResponseSteps(f, sb, HEADER_LEN + 1, resp.message, o2, un, o2 + 4, e[0], o2 + 5, ResponseAfterTrip(resp).data);
  }

  /** serialize_response with the frame bounded as the receiver bounds it. */
  function EncodeResponseFrame(resp: ServerResponse): (r: Result<Text, CodecError>)
    ensures r.Ok? ==> r == EncodeResponse(resp) && WellFormed(r.value)
    ensures r.Ok? <==> EncodeResponse(resp).Ok? && |EncodeResponse(resp).value| <= HEADER_LEN + MAX_PAYLOAD
  {
    var r := CheckFrameSize(EncodeResponse(resp));
    if r.Ok? then
      ResponseHeader(resp);
      r
    else r
  }

  lemma ResponseHeader(resp: ServerResponse)
    requires EncodeResponse(resp).Ok?
    ensures var f := EncodeResponse(resp).value;
      FromBE(f[1..5]) == |f| - HEADER_LEN
  {
    var f := EncodeResponse(resp).value;
    var e := EncodeEmbedded(resp.data).value;
    var p := [StatusByte(resp.status)] + StrBytes(resp.message) + U32(OrZero(resp.unreadCount)) + e;
    assert f == [0] + U32(|p|) + p;
    assert f[1..5] == U32(|p|);
    U32RoundTrip(|p|);
  }

  /**
   * As written, serialize_response bounds nothing: a response frame whose
   * payload is over the limit loses its header at the receiver, and its
   * payload bytes are then read as new frames.
   */
  lemma OversizeResponseDropped(resp: ServerResponse, rest: Text)
    requires EncodeResponse(resp).Ok? && |EncodeResponse(resp).value| > HEADER_LEN + MAX_PAYLOAD
    ensures !EncodeResponseFrame(resp).Ok?
    ensures var f := EncodeResponse(resp).value;
      ExtractFrame(f + rest) == (None, f[HEADER_LEN..] + rest)
  {
    var f := EncodeResponse(resp).value;
    ResponseHeader(resp);
    assert f == f[..HEADER_LEN] + f[HEADER_LEN..];
    assert f[..HEADER_LEN][1..5] == f[1..5];
    assert f + rest == f[..HEADER_LEN] + (f[HEADER_LEN..] + rest);
    ExtractDropsOversizeHeader(f[..HEADER_LEN], f[HEADER_LEN..] + rest);
  }
}
