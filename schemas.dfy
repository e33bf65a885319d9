/**
 * The message schema shared by client, server and both wire protocols:
 * message kinds, response status, the system message texts, the chat
 * message record and the server response record.
 */
module Schemas {
  import opened Octets
  import opened Wrappers

  /** The twelve message kinds, in declaration order. */
  datatype MessageType =
    | ServerResponse
    | Login
    | Logout
    | Join
    | Register
    | Chat
    | Dm
    | Fetch
    | MarkRead
    | Delete
    | DeleteNotification
    | DeleteAccount

  /** Iteration order of the enumeration, which is its declaration order. */
  const ALL_TYPES: seq<MessageType> := [
    MessageType.ServerResponse, Login, Logout, Join, Register,
    Chat, Dm, Fetch, MarkRead,
    Delete, DeleteNotification, DeleteAccount
  ]

  /** Every kind appears in the enumeration exactly once. */
  lemma AllTypesEnumerates()
    ensures |ALL_TYPES| == 12
    ensures forall t: MessageType :: t in ALL_TYPES
    ensures forall i, j | 0 <= i < j < |ALL_TYPES| :: ALL_TYPES[i] != ALL_TYPES[j]
  {
    forall t: MessageType ensures t in ALL_TYPES {
      match t
      case ServerResponse => assert ALL_TYPES[0] == t;
      case Login => assert ALL_TYPES[1] == t;
      case Logout => assert ALL_TYPES[2] == t;
      case Join => assert ALL_TYPES[3] == t;
      case Register => assert ALL_TYPES[4] == t;
      case Chat => assert ALL_TYPES[5] == t;
      case Dm => assert ALL_TYPES[6] == t;
      case Fetch => assert ALL_TYPES[7] == t;
      case MarkRead => assert ALL_TYPES[8] == t;
      case Delete => assert ALL_TYPES[9] == t;
      case DeleteNotification => assert ALL_TYPES[10] == t;
      case DeleteAccount => assert ALL_TYPES[11] == t;
    }
  }

  datatype Status = Success | Error

  /** A timestamp: the 8 bytes of the IEEE double the binary protocol carries. */
  type Stamp = s: seq<byte> | |s| == 8 witness [0, 0, 0, 0, 0, 0, 0, 0]

  // ---------------------------------------------------------------------
  // System message texts
  // ---------------------------------------------------------------------

  const NEW_MESSAGE: Text := Ascii("new_message")
  const LOGIN_REQUIRED: Text := Ascii("Please login or register first")
  const USER_EXISTS: Text := Ascii("Username already exists. Please login instead.")
  const PASSWORD_REQUIRED: Text := Ascii("Password is required")
  const USERNAME_REQUIRED: Text := Ascii("Username is required")
  const USERNAME_TOO_SHORT: Text := Ascii("Username must be at least 2 characters")
  const INVALID_USERNAME: Text := Ascii("Username can only contain letters, numbers, and underscores")
  const REGISTRATION_SUCCESS: Text := Ascii("Registration successful! Logging in...")
  const REGISTRATION_FAILED: Text := Ascii("Registration failed")
  const INVALID_CREDENTIALS: Text := Ascii("Invalid username or password")
  const USER_ALREADY_LOGGED_IN: Text := Ascii("User already logged in")
  const LOGIN_SUCCESS: Text := Ascii("Login successful")

  /** The "{}" of a one-argument template. */
  const PLACEHOLDER: Text := [OPEN_BRACE, CLOSE_BRACE]

  const ACCOUNT_DELETED: Text := PLACEHOLDER + Ascii(" has deleted their account")
  const USER_JOINED: Text := PLACEHOLDER + Ascii(" has joined the chat")
  const USER_LOGGED_OUT: Text := PLACEHOLDER + Ascii(" has logged out")
  const MESSAGES_DELETED: Text := Ascii("Deleted ") + PLACEHOLDER + Ascii(" message(s)")
  const UNREAD_MESSAGES: Text := Ascii("You have ") + PLACEHOLDER + Ascii(" unread messages")

  /** "{} has joined the chat".format(u) */
  lemma UserJoinedFormat(u: Text)
    ensures Format(USER_JOINED, u) == u + Ascii(" has joined the chat")
  {
    assert USER_JOINED == [] + PLACEHOLDER + USER_JOINED[2..];
    FormatOnePlaceholder([], Ascii(" has joined the chat"), u);
  }

  /** "{} has logged out".format(u) */
  lemma UserLoggedOutFormat(u: Text)
    ensures Format(USER_LOGGED_OUT, u) == u + Ascii(" has logged out")
  {
    assert USER_LOGGED_OUT == [] + PLACEHOLDER + USER_LOGGED_OUT[2..];
    FormatOnePlaceholder([], Ascii(" has logged out"), u);
  }

  /** "{} has deleted their account".format(u) */
  lemma AccountDeletedFormat(u: Text)
    ensures Format(ACCOUNT_DELETED, u) == u + Ascii(" has deleted their account")
  {
    assert ACCOUNT_DELETED == [] + PLACEHOLDER + ACCOUNT_DELETED[2..];
    FormatOnePlaceholder([], Ascii(" has deleted their account"), u);
  }

  /** "You have {} unread messages".format(n) */
  lemma UnreadMessagesFormat(n: int)
    ensures Format(UNREAD_MESSAGES, IntText(n))
         == Ascii("You have ") + IntText(n) + Ascii(" unread messages")
  {
    FormatOnePlaceholder(Ascii("You have "), Ascii(" unread messages"), IntText(n));
  }

  // ---------------------------------------------------------------------
  // Records
  // ---------------------------------------------------------------------

  /** A chat message; every kind of request and notification is one. */
  datatype ChatMessage = ChatMessage(
    username: Text,
    content: Text,
    timestamp: Stamp,
    messageType: MessageType,
    recipients: Option<seq<Text>>,
    messageId: Option<int>,
    fetchCount: Option<int>,
    messageIds: Option<seq<int>>,
    password: Option<Text>,
    activeUsers: Option<seq<Text>>,
    unreadCount: Option<int>)

  /**
   * A message built from a username and a content only. The default
   * timestamp is evaluated once, when the record class is defined, so
   * every such message carries that same instant: classDefined.
   */
  function NewMessage(username: Text, content: Text, classDefined: Stamp): (m: ChatMessage)
    ensures m.username == username && m.content == content && m.timestamp == classDefined
    ensures m.messageType == Chat
    ensures m.recipients.None? && m.messageId.None? && m.fetchCount.None?
    ensures m.messageIds.None? && m.password.None? && m.activeUsers.None? && m.unreadCount.None?
  {
    ChatMessage(username, content, classDefined, Chat, None, None, None, None, None, None, None)
  }

  /** Python truthiness of an optional list: present and non-empty. */
  predicate NonEmpty<T>(xs: Option<seq<T>>)
  {
    xs.Some? && |xs.value| > 0
  }

  /** Python truthiness of an optional string. */
  predicate HasText(s: Option<Text>)
  {
    s.Some? && |s.value| > 0
  }

  /** The text shown for a message, after its id prefix. */
  function ShownBody(m: ChatMessage): Text
  {
    if m.messageType == Dm && NonEmpty(m.recipients)
    then Ascii("DM to ") + m.recipients.value[0] + Ascii(": ") + m.content
    else m.content
  }

  /** ChatMessage.__str__ */
  function Show(m: ChatMessage): Text
  {
    var prefix := if m.messageId.Some? then Ascii("[") + IntText(m.messageId.value) + Ascii("] ") else [];
    prefix + ShownBody(m)
  }

  /**
   * The shown text begins with the bracketed decimal id when the message
   * has an id; without one it is the body alone. A DM to someone
   * names its first recipient before the content; anything else shows the
   * content only.
   */
  lemma ShowLayout(m: ChatMessage)
    ensures m.messageId.None? ==> Show(m) == ShownBody(m)
    ensures m.messageId.Some? ==>
      var k := |IntText(m.messageId.value)|;
      && |Show(m)| == k + 3 + |ShownBody(m)|
      && Show(m)[0] == 91
      && Show(m)[1..k + 1] == IntText(m.messageId.value)
      && Show(m)[k + 1..k + 3] == [93, 32]
      && Show(m)[k + 3..] == ShownBody(m)
    ensures m.messageType == Dm && NonEmpty(m.recipients) ==>
      ShownBody(m) == Ascii("DM to ") + m.recipients.value[0] + Ascii(": ") + m.content
    ensures !(m.messageType == Dm && NonEmpty(m.recipients)) ==> ShownBody(m) == m.content
  {
    if m.messageId.Some? {
      var d := IntText(m.messageId.value);
      assert Show(m) == [91] + d + [93, 32] + ShownBody(m);
    }
  }

  /**
   * The id shown between the brackets reads back: the bracketed text holds
   * no closing bracket, and its digits (after a minus sign for a negative
   * id) are the id's magnitude.
   */
  lemma ShowIdReadsBack(m: ChatMessage)
    requires m.messageId.Some?
    ensures var n := m.messageId.value;
      var k := |IntText(n)|;
      && k + 1 <= |Show(m)| && Show(m)[0] == 91 && Show(m)[k + 1] == 93
      && (forall i | 1 <= i <= k :: Show(m)[i] != 93)
      && (n >= 0 ==> DigitsValue(Show(m)[1..k + 1]) == n)
      && (n < 0 ==> Show(m)[1] == 45 && DigitsValue(Show(m)[2..k + 1]) == -n)
  {
    var n := m.messageId.value;
    ShowLayout(m);
    IntTextRoundTrip(n);
    var d := IntText(n);
    var k := |d|;
    assert Show(m)[1..k + 1] == d;
    assert Show(m)[k + 1..k + 3][0] == Show(m)[k + 1];
    if n < 0 {
      NatDigitsRoundTrip(-n);
      assert d == [45] + NatDigits(-n);
      assert Show(m)[2..k + 1] == d[1..];
    } else {
      NatDigitsRoundTrip(n);
    }
    forall i | 1 <= i <= k ensures Show(m)[i] != 93 {
      assert Show(m)[i] == d[i - 1];
    }
  }

  /** A response to a client request, or a pushed message. */
  datatype ServerResponse = Response(
    status: Status,
    message: Text,
    data: Option<ChatMessage>,
    unreadCount: Option<int>)

  /** A response built from its message alone. */
  function NewResponse(message: Text): (r: ServerResponse)
    ensures r.status == Success && r.message == message
    ensures r.data.None? && r.unreadCount.None?
  {
    Response(Success, message, None, None)
  }

  /** A failure response carrying one human-readable message and no data. */
  function ErrorResponse(message: Text): (r: ServerResponse)
    ensures r.status == Error && r.message == message && r.data.None? && r.unreadCount.None?
  {
    Response(Error, message, None, None)
  }
}
