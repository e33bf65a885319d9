/**
 * The chat server's shared state and its request handlers, each as a
 * function from the state before to the state after. The state holds the
 * connection registry (`clients`, `usernames`, and the order in which the
 * connections logged in, which is the iteration order of both
 * dictionaries), the per-connection receive buffers, the username each
 * connection handler has authenticated, the sockets on which a send fails,
 * every response that reached a socket, the removals that failed
 * broadcasts have scheduled, and the message store's tables.
 */
module Chat {
  import opened Octets
  import opened Wrappers
  import opened Schemas
  import opened Sockets
  import Protocols
  import T = Tables
  import opened Routing

  /** What the server is set up with and never changes. */
  datatype Config = Config(
    protocol: Protocols.Protocol,
    load: Text -> Option<ChatMessage>,  // the JSON parser
    hash: Text -> Text,                 // the password digest
    stamp: Stamp)                       // the default timestamp of a new ChatMessage

  datatype World = World(
    clients: map<SocketId, Text>,
    usernames: map<Text, SocketId>,
    order: seq<SocketId>,
    buffers: map<SocketId, Text>,
    handlers: map<SocketId, Option<Text>>,
    down: set<SocketId>,
    outbox: seq<Delivery>,
    pending: seq<SocketId>,
    tables: T.Snapshot)

  const SYSTEM: Text := Ascii("System")
  const EMPTY_MESSAGE: Text := Ascii("Empty message not allowed")

  predicate DistinctSockets(xs: seq<SocketId>)
  {
    forall i, j | 0 <= i < j < |xs| :: xs[i] != xs[j]
  }

  /** clients and usernames are inverse maps; order lists each connection once. */
  ghost predicate Registered(clients: map<SocketId, Text>, usernames: map<Text, SocketId>, order: seq<SocketId>)
  {
    && DistinctSockets(order)
    && (forall s :: s in order <==> s in clients)
    && (forall s | s in clients :: clients[s] in usernames && usernames[clients[s]] == s)
    && (forall u | u in usernames :: usernames[u] in clients && clients[usernames[u]] == u)
  }

  /** Every registered connection has a running handler that authenticated its name. */
  ghost predicate Valid(w: World)
  {
    && T.Valid(w.tables)
    && Registered(w.clients, w.usernames, w.order)
    && (forall s | s in w.clients :: s in w.handlers && w.handlers[s] == Some(w.clients[s]))
  }

  /** The server before its first connection, over a freshly created store. */
  function Initial(): (w: World)
    ensures Valid(w) && w.clients == map[] && w.handlers == map[] && w.outbox == []
  {
    World(map[], map[], [], map[], map[], {}, [], [], T.Empty())
  }

  /** list(self.usernames.keys()): the online names, in login order. */
  function ActiveNames(clients: map<SocketId, Text>, order: seq<SocketId>): (names: seq<Text>)
    requires forall s | s in order :: s in clients
    ensures |names| == |order|
    ensures forall i | 0 <= i < |order| :: names[i] == clients[order[i]]
  {
    seq(|order|, i requires 0 <= i < |order| => clients[order[i]])
  }

  /** The active-user list names each online user exactly once. */
  lemma ActiveNamesAreUsernames(clients: map<SocketId, Text>, usernames: map<Text, SocketId>, order: seq<SocketId>)
    requires Registered(clients, usernames, order)
    ensures forall u :: u in ActiveNames(clients, order) <==> u in usernames
    ensures var names := ActiveNames(clients, order);
      forall i, j | 0 <= i < j < |names| :: names[i] != names[j]
  {
    var names := ActiveNames(clients, order);
    forall u | u in usernames ensures u in names {
      var s := usernames[u];
      var i :| 0 <= i < |order| && order[i] == s;
      assert names[i] == u;
    }
    forall i, j | 0 <= i < j < |names| ensures names[i] != names[j] {
      assert usernames[names[i]] == order[i];
      assert usernames[names[j]] == order[j];
    }
  }

  /** The sequence without any occurrence of s. */
  function Without(xs: seq<SocketId>, s: SocketId): (r: seq<SocketId>)
    ensures forall x :: x in r <==> x in xs && x != s
    ensures DistinctSockets(xs) ==> DistinctSockets(r)
  {
    if xs == [] then []
    else
      var front := Without(xs[..|xs| - 1], s);
      var x := xs[|xs| - 1];
      assert xs == xs[..|xs| - 1] + [x];
      assert DistinctSockets(xs) ==> forall i | 0 <= i < |xs| - 1 :: xs[i] != x;
      assert DistinctSockets(xs) ==> x !in xs[..|xs| - 1] && x !in front;
      if x == s then front else front + [x]
  }

  // ---------------------------------------------------------------------
  // Sends
  // ---------------------------------------------------------------------

  /** A direct send: the response reaches the socket when it works. */
  function Push(c: Config, w: World, s: SocketId, resp: ServerResponse): (r: (World, bool))
    ensures r.1 <==> Works(c.protocol, w.down, s, resp)
    ensures r.0 == w.(outbox := w.outbox + (if r.1 then [Delivery(s, resp)] else []))
  {
    (w.(outbox := w.outbox + Sends(c.protocol, w.down, [Delivery(s, resp)])), Works(c.protocol, w.down, s, resp))
  }

  /** Sends whose failures schedule the failed socket's removal. */
  function Spread(c: Config, w: World, tries: seq<Delivery>): (r: World)
    ensures r == w.(outbox := w.outbox + Sends(c.protocol, w.down, tries), pending := w.pending + Failures(c.protocol, w.down, tries))
  {
    w.(outbox := w.outbox + Sends(c.protocol, w.down, tries), pending := w.pending + Failures(c.protocol, w.down, tries))
  }

  /** send_error: false when the send raised (no socket, or the socket failed). */
  function SendError(c: Config, w: World, to: Option<SocketId>, text: Text): (r: (World, bool))
    ensures r.1 <==> to.Some? && Works(c.protocol, w.down, to.value, ErrorResponse(text))
    ensures r.0 == w.(outbox := w.outbox + (if r.1 then [Delivery(to.value, ErrorResponse(text))] else []))
  {
    if to.None? then (w, false) else Push(c, w, to.value, ErrorResponse(text))
  }

  // ---------------------------------------------------------------------
  // Direct messages
  // ---------------------------------------------------------------------

  /** "User '{r}' does not exist" */
  function NoSuchUser(r: Text): Text
  {
    Ascii("User '") + r + Ascii("' does not exist")
  }

  /** The first recipient that has no account, if any. */
  function MissingRecipient(t: T.Snapshot, rs: seq<Text>): (r: Option<Text>)
    ensures r.None? <==> forall u | u in rs :: T.UserExists(t, u)
    ensures r.Some? ==> exists i | 0 <= i < |rs| ::
      (rs[i] == r.value && !T.UserExists(t, rs[i]) && forall j | 0 <= j < i :: T.UserExists(t, rs[j]))
  {
    if rs == [] then None
    else if !T.UserExists(t, rs[0]) then Some(rs[0])
    else
      var r := MissingRecipient(t, rs[1..]);
      assert forall u | u in rs :: u == rs[0] || u in rs[1..];
      assert r.Some? ==> exists i | 0 <= i < |rs| ::
        (rs[i] == r.value && !T.UserExists(t, rs[i]) && forall j | 0 <= j < i :: T.UserExists(t, rs[j])) by {
        if r.Some? {
          var i :| 0 <= i < |rs[1..]| && rs[1..][i] == r.value && !T.UserExists(t, rs[1..][i])
            && forall j | 0 <= j < i :: T.UserExists(t, rs[1..][j]);
          assert rs[i + 1] == r.value && forall j | 0 <= j < i + 1 :: T.UserExists(t, rs[j]);
        }
      }
      r
  }

  /** A DM whose checks passed: store it, push it to each online recipient, echo it to its sender. */
  function Dispatch(c: Config, w: World, m: ChatMessage): (r: World)
    requires NonEmpty(m.recipients)
    ensures Valid(w) ==> Valid(r)
    ensures r.clients == w.clients && r.usernames == w.usernames && r.order == w.order
    ensures r.buffers == w.buffers && r.handlers == w.handlers && r.down == w.down && r.pending == w.pending
  {
    var (t1, id) := T.StoreMessage(w.tables, m);
    var m' := m.(messageId := Some(id.value as int));
    var sent := Sends(c.protocol, w.down, Fanout(RecipientTargets(m.recipients.value, w.usernames, None), Pushed(m', None)));
    var w1 := w.(tables := T.MarkAllDelivered(t1, DeliveredIds(sent)), outbox := w.outbox + sent);
    if m.username in w.usernames then Push(c, w1, w.usernames[m.username], Pushed(m', None)).0 else w1
  }

  /**
   * handle_dm: nothing without recipients; an error for a blank message or
   * an unknown recipient; otherwise the message is dispatched. The flag is
   * false when an error could not be sent, which the source raises.
   */
  function HandleDm(c: Config, w: World, m: ChatMessage, sender: Option<SocketId>): (r: (World, bool))
    ensures Valid(w) ==> Valid(r.0)
    ensures r.0.clients == w.clients && r.0.usernames == w.usernames && r.0.order == w.order
    ensures r.0.buffers == w.buffers && r.0.handlers == w.handlers && r.0.down == w.down && r.0.pending == w.pending
  {
    if !NonEmpty(m.recipients) then (w, true)
    else if m.content == [] || AllSpace(m.content) then SendError(c, w, sender, EMPTY_MESSAGE)
    else
      var missing := MissingRecipient(w.tables, m.recipients.value);
      if missing.Some? then SendError(c, w, sender, NoSuchUser(missing.value))
      else (Dispatch(c, w, m), true)
  }

  /**
   * send_to_recipients: a DM goes through handle_dm; anything else is
   * pushed along its route, and each socket whose send fails is scheduled
   * for removal.
   */
  function SendToRecipients(c: Config, w: World, m: ChatMessage, exclude: Option<SocketId>): (r: (World, bool))
    ensures Valid(w) ==> Valid(r.0)
    ensures r.0.clients == w.clients && r.0.usernames == w.usernames && r.0.order == w.order
    ensures r.0.buffers == w.buffers && r.0.handlers == w.handlers && r.0.down == w.down
    ensures m.messageType != Dm ==> r.1 && r.0 == Spread(c, w, Fanout(Route(m, w.usernames, w.order, exclude), Pushed(m, None)))
  {
    if m.messageType == Dm then HandleDm(c, w, m, exclude)
    else (Spread(c, w, Fanout(Route(m, w.usernames, w.order, exclude), Pushed(m, None))), true)
  }

  // ---------------------------------------------------------------------
  // History, read marks and deletion
  // ---------------------------------------------------------------------

  /** The fetch size: the request's, unless it is missing or zero. */
  function FetchLimit(m: ChatMessage): (n: int)
    ensures n != 0
    ensures m.fetchCount.None? || m.fetchCount.value == 0 ==> n == 10
  {
    if m.fetchCount.None? || m.fetchCount.value == 0 then 10 else m.fetchCount.value
  }

  /** What a fetch returns: the conversation between two named users, or the requester's unread messages. */
  function FetchResults(t: T.Snapshot, m: ChatMessage): (msgs: seq<ChatMessage>)
    requires T.Valid(t)
    ensures FetchLimit(m) > 0 ==> |msgs| <= FetchLimit(m)
    ensures m.recipients.Some? && |m.recipients.value| == 2 ==>
      var (a, b) := (m.recipients.value[0], m.recipients.value[1]);
      forall c | c in msgs ::
        && c.messageType == Dm && c.recipients.Some? && |c.recipients.value| == 1
        && ((c.username == a && c.recipients.value[0] == b) || (c.username == b && c.recipients.value[0] == a))
    ensures !(m.recipients.Some? && |m.recipients.value| == 2) ==>
      forall c | c in msgs :: c.recipients == Some([m.username])
  {
    if m.recipients.Some? && |m.recipients.value| == 2 then
      T.ConversationShape(t, m.recipients.value[0], m.recipients.value[1], FetchLimit(m));
      T.Conversation(t, m.recipients.value[0], m.recipients.value[1], FetchLimit(m))
    else
      T.UnreadMessagesShape(t, m.username, Some(FetchLimit(m)));
      T.UnreadMessagesAddressed(t, m.username, Some(FetchLimit(m)));
      T.UnreadMessages(t, m.username, Some(FetchLimit(m)))
  }

  /** handle_fetch_request: each result pushed with the total unread count, and marked delivered once it is sent. */
  function HandleFetch(c: Config, w: World, m: ChatMessage, s: SocketId): (r: World)
    requires T.Valid(w.tables)
    ensures Valid(w) ==> Valid(r)
    ensures r.clients == w.clients && r.usernames == w.usernames && r.order == w.order
    ensures r.buffers == w.buffers && r.handlers == w.handlers && r.down == w.down && r.pending == w.pending
  {
    var sent := Sends(c.protocol, w.down, PushAll(s, FetchResults(w.tables, m), Some(T.UnreadCount(w.tables, m.username))));
    w.(tables := T.MarkAllDelivered(w.tables, DeliveredIds(sent)), outbox := w.outbox + sent)
  }

  /** The notice carrying a user's unread count after a read mark. */
  function UnreadNotice(n: nat, stamp: Stamp): (m: ChatMessage)
    ensures m.username == SYSTEM && m.content == [] && m.messageType == Chat && m.unreadCount == Some(n)
  {
    NewMessage(SYSTEM, [], stamp).(unreadCount := Some(n))
  }

  /** Push u its unread count, if u is online. */
  function NotifyUnread(c: Config, w: World, u: Text): (r: World)
    ensures r == w.(outbox := r.outbox)
    ensures r.outbox == w.outbox +
      (if u in w.usernames && Works(c.protocol, w.down, w.usernames[u], Pushed(UnreadNotice(T.UnreadCount(w.tables, u), c.stamp), None))
       then [Delivery(w.usernames[u], Pushed(UnreadNotice(T.UnreadCount(w.tables, u), c.stamp), None))] else [])
  {
    if u in w.usernames then Push(c, w, w.usernames[u], Pushed(UnreadNotice(T.UnreadCount(w.tables, u), c.stamp), None)).0 else w
  }

  /** handle_mark_read: everything from one sender, or the listed ids; then the new count. */
  function HandleMarkRead(c: Config, w: World, m: ChatMessage): (r: World)
    ensures Valid(w) ==> Valid(r)
    ensures r.clients == w.clients && r.usernames == w.usernames && r.order == w.order
    ensures r.buffers == w.buffers && r.handlers == w.handlers && r.down == w.down && r.pending == w.pending
  {
    if NonEmpty(m.recipients) then NotifyUnread(c, w.(tables := T.MarkReadFromUser(w.tables, m.username, m.recipients.value[0])), m.username)
    else if NonEmpty(m.messageIds) then NotifyUnread(c, w.(tables := T.MarkRead(w.tables, m.messageIds.value, m.username)), m.username)
    else w
  }

  /** handle_delete_messages: delete, then tell every affected user who is online. */
  function HandleDelete(c: Config, w: World, m: ChatMessage): (r: World)
    ensures Valid(w) ==> Valid(r)
    ensures r.clients == w.clients && r.usernames == w.usernames && r.order == w.order
    ensures r.buffers == w.buffers && r.handlers == w.handlers && r.down == w.down && r.pending == w.pending
  {
    if NonEmpty(m.messageIds) && NonEmpty(m.recipients) then
      var (t1, n, info) := T.DeleteMessages(w.tables, m.messageIds.value, m.username, m.recipients.value[0]);
      var tries := NoticeTries(Notified(m.username, info), w.usernames, m.username, m.messageIds.value, info, c.stamp);
      w.(tables := t1, outbox := w.outbox + Sends(c.protocol, w.down, tries))
    else w
  }

  // ---------------------------------------------------------------------
  // Removal
  // ---------------------------------------------------------------------

  /** "{u} has logged out", as a LOGOUT message from u. */
  function LogoutMessage(u: Text, stamp: Stamp): (m: ChatMessage)
    ensures m.username == u && m.content == Format(USER_LOGGED_OUT, u) && m.messageType == Logout
    ensures m.recipients.None?
  {
    NewMessage(u, Format(USER_LOGGED_OUT, u), stamp).(messageType := Logout)
  }

  /** Drop a registered connection from the registry and its buffer. */
  function Unregister(w: World, s: SocketId): (r: World)
    requires s in w.clients
    ensures Valid(w) ==> Valid(r)
  {
    var r := w.(clients := w.clients - {s}, usernames := w.usernames - {w.clients[s]},
                buffers := w.buffers - {s}, order := Without(w.order, s));
    assert Valid(w) ==> forall x | x in r.clients :: r.clients[x] != w.clients[s];
    r
  }

  /**
   * remove_client: unregister the connection if it is registered,
   * broadcast its logout to everyone else when asked and it had a name,
   * and close it.
   */
  function RemoveClient(c: Config, w: World, s: SocketId, sendLogout: bool): (r: World)
    ensures Valid(w) ==> Valid(r)
    ensures r.handlers == w.handlers && s !in r.clients && s in r.down
  {
    var w1 := if s in w.clients then Unregister(w, s) else w;
    var w2 := if s in w.clients && w.clients[s] != [] && sendLogout
      then SendToRecipients(c, w1, LogoutMessage(w.clients[s], c.stamp), Some(s)).0 else w1;
    w2.(down := w2.down + {s})
  }

  /** A scheduled removal runs: the first failed socket is removed, with a logout broadcast. */
  function Reap(c: Config, w: World): (r: World)
    requires w.pending != []
    ensures Valid(w) ==> Valid(r)
  {
    RemoveClient(c, w.(pending := w.pending[1..]), w.pending[0], true)
  }

  // ---------------------------------------------------------------------
  // Properties
  // ---------------------------------------------------------------------

  /**
   * A message that is not a DM, sent to its recipients, reaches exactly
   * the online recipients (or, without recipients, every connection) other
   * than the excluded one whose sockets work; every other target is
   * scheduled for removal; nothing else changes.
   */
  lemma RecipientsReached(c: Config, w: World, m: ChatMessage, exclude: Option<SocketId>)
    requires m.messageType != Dm
    ensures var r := SendToRecipients(c, w, m, exclude).0;
      && r == w.(outbox := r.outbox, pending := r.pending)
      && |r.outbox| >= |w.outbox| && r.outbox[..|w.outbox|] == w.outbox
      && |r.pending| >= |w.pending| && r.pending[..|w.pending|] == w.pending
      && (forall x: SocketId :: Delivery(x, Pushed(m, None)) in r.outbox[|w.outbox|..] <==>
            Works(c.protocol, w.down, x, Pushed(m, None)) && Some(x) != exclude &&
            (if NonEmpty(m.recipients) then exists u | u in m.recipients.value :: u in w.usernames && w.usernames[u] == x
             else x in w.order))
      && (forall d | d in r.outbox[|w.outbox|..] :: d.response == Pushed(m, None))
      && (forall x: SocketId :: x in r.pending[|w.pending|..] <==>
            !Works(c.protocol, w.down, x, Pushed(m, None)) && x in Route(m, w.usernames, w.order, exclude))
  {
    var ts := Route(m, w.usernames, w.order, exclude);
    var tries := Fanout(ts, Pushed(m, None));
    var r := SendToRecipients(c, w, m, exclude).0;
    assert r.outbox[|w.outbox|..] == Sends(c.protocol, w.down, tries);
    assert r.pending[|w.pending|..] == Failures(c.protocol, w.down, tries);
    forall d | d in tries ensures d.to in ts && d.response == Pushed(m, None) {
      var i :| 0 <= i < |tries| && tries[i] == d;
    }
    forall x | x in ts ensures Delivery(x, Pushed(m, None)) in tries {
      var i :| 0 <= i < |ts| && ts[i] == x;
      assert tries[i] == Delivery(x, Pushed(m, None));
    }
  }

  /** Whether handle_dm stores the message: it has recipients, a non-blank content, and every recipient has an account. */
  predicate DmAccepted(t: T.Snapshot, m: ChatMessage)
  {
    && NonEmpty(m.recipients)
    && m.content != [] && !AllSpace(m.content)
    && forall u | u in m.recipients.value :: T.UserExists(t, u)
  }

  /** A refused DM changes no table, and only a refused DM can raise. */
  lemma DmRefused(c: Config, w: World, m: ChatMessage, sender: Option<SocketId>)
    requires Valid(w)
    ensures var (r, ok) := HandleDm(c, w, m, sender);
      && (!DmAccepted(w.tables, m) ==> r.tables == w.tables)
      && (!ok ==> !DmAccepted(w.tables, m) && NonEmpty(m.recipients))
      && (!NonEmpty(m.recipients) ==> r == w && ok)
  {
  }

  /**
   * An accepted DM is stored as one new unread row from the sender to the
   * first recipient, under the next id, and the handler does not raise.
   */
  lemma DmStored(c: Config, w: World, m: ChatMessage, sender: Option<SocketId>)
    requires Valid(w) && DmAccepted(w.tables, m)
    ensures var (r, ok) := HandleDm(c, w, m, sender);
      var id := w.tables.nextId;
      && ok && r.tables.nextId == id + 1 && id !in w.tables.messages && id in r.tables.messages
      && r.tables.messages[id].sender == m.username
      && r.tables.messages[id].recipient == m.recipients.value[0]
      && r.tables.messages[id].content == m.content
      && !r.tables.messages[id].read
  {
    assert MissingRecipient(w.tables, m.recipients.value).None?;
    assert HandleDm(c, w, m, sender) == (Dispatch(c, w, m), true);
    DispatchStores(c, w, m);
  }

  /** Dispatch keeps the stored row as StoreMessage wrote it, except for its delivered flag. */
  lemma DispatchStores(c: Config, w: World, m: ChatMessage)
    requires NonEmpty(m.recipients)
    ensures var t1 := T.StoreMessage(w.tables, m).0;
      var r := Dispatch(c, w, m).tables;
      && r.nextId == t1.nextId && r.messages.Keys == t1.messages.Keys
      && forall id | id in t1.messages :: r.messages[id] == t1.messages[id].(delivered := r.messages[id].delivered)
  {
  }

  /** The stored row of an accepted DM is marked delivered exactly when the message reached one of its recipients. */
  lemma DmDeliveredIff(c: Config, w: World, m: ChatMessage, sender: Option<SocketId>)
    requires Valid(w) && DmAccepted(w.tables, m)
    ensures var (r, ok) := HandleDm(c, w, m, sender);
      var id := w.tables.nextId;
      var m' := m.(messageId := Some(id as int));
      id in r.tables.messages &&
      (r.tables.messages[id].delivered <==>
        exists u | u in m.recipients.value :: u in w.usernames && Works(c.protocol, w.down, w.usernames[u], Pushed(m', None)))
  {
    var id := w.tables.nextId;
    var m' := m.(messageId := Some(id as int));
    RecipientsDelivered(c.protocol, w.down, m.recipients.value, w.usernames, Pushed(m', None), id);
  }

  /** Dispatch's sends: the stored message, under its new id, to each online recipient, then to its sender if online. */
  lemma DispatchSends(c: Config, w: World, m: ChatMessage)
    requires NonEmpty(m.recipients)
    ensures var m' := m.(messageId := Some(w.tables.nextId as int));
      Dispatch(c, w, m).outbox == w.outbox + EchoedSends(c.protocol, w.down, m.recipients.value, w.usernames, m.username, m')
  {
    var (t1, id) := T.StoreMessage(w.tables, m);
    assert id == Some(w.tables.nextId);
  }

  /**
   * What an accepted DM sends: the stored message, under its new id, to
   * each online recipient in turn, then once more to its sender if the
   * sender is online; each send only where it works.
   */
  lemma DmSent(c: Config, w: World, m: ChatMessage, sender: Option<SocketId>)
    requires Valid(w) && DmAccepted(w.tables, m)
    ensures var (r, ok) := HandleDm(c, w, m, sender);
      var m' := m.(messageId := Some(w.tables.nextId as int));
      && ok
      && r.outbox == w.outbox + EchoedSends(c.protocol, w.down, m.recipients.value, w.usernames, m.username, m')
      && r.outbox == w.outbox + Sends(c.protocol, w.down, Fanout(RecipientTargets(m.recipients.value, w.usernames, None), Pushed(m', None)))
           + (if m.username in w.usernames && Works(c.protocol, w.down, w.usernames[m.username], Pushed(m', None))
              then [Delivery(w.usernames[m.username], Pushed(m', None))] else [])
  {
    assert MissingRecipient(w.tables, m.recipients.value).None?;
    assert HandleDm(c, w, m, sender) == (Dispatch(c, w, m), true);
    DispatchSends(c, w, m);
  }

  /**
   * An accepted DM reaches a socket exactly when the socket works and
   * belongs to one of its online recipients or to its sender, and every
   * response it sends is that message.
   */
  lemma DmReach(c: Config, w: World, m: ChatMessage, sender: Option<SocketId>)
    requires Valid(w) && DmAccepted(w.tables, m)
    ensures var r := HandleDm(c, w, m, sender).0;
      var push := Pushed(m.(messageId := Some(w.tables.nextId as int)), None);
      && |r.outbox| >= |w.outbox| && r.outbox[..|w.outbox|] == w.outbox
      && (forall d | d in r.outbox[|w.outbox|..] :: d.response == push)
      && (forall x: SocketId :: Delivery(x, push) in r.outbox[|w.outbox|..] <==>
            && Works(c.protocol, w.down, x, push)
            && ((exists u | u in m.recipients.value :: u in w.usernames && w.usernames[u] == x)
                || (m.username in w.usernames && w.usernames[m.username] == x)))
  {
    var m' := m.(messageId := Some(w.tables.nextId as int));
    DmSent(c, w, m, sender);
    EchoedReach(c.protocol, w.down, m.recipients.value, w.usernames, m.username, m', w.outbox, HandleDm(c, w, m, sender).0.outbox);
  }

  /** The error a refused DM answers with: a blank message, or the first recipient without an account. */
  function DmRefusal(t: T.Snapshot, m: ChatMessage): (e: Text)
    requires NonEmpty(m.recipients) && !DmAccepted(t, m)
    ensures m.content == [] || AllSpace(m.content) ==> e == EMPTY_MESSAGE
    ensures m.content != [] && !AllSpace(m.content) ==> exists i | 0 <= i < |m.recipients.value| ::
      && !T.UserExists(t, m.recipients.value[i])
      && (forall j | 0 <= j < i :: T.UserExists(t, m.recipients.value[j]))
      && e == NoSuchUser(m.recipients.value[i])
  {
    if m.content == [] || AllSpace(m.content) then EMPTY_MESSAGE
    else NoSuchUser(MissingRecipient(t, m.recipients.value).value)
  }

  /**
   * A refused DM sends nothing but that error, to its sender, and changes
   * nothing else; the handler raises exactly when the error cannot be sent.
   */
  lemma DmRefusedReply(c: Config, w: World, m: ChatMessage, sender: Option<SocketId>)
    requires Valid(w) && NonEmpty(m.recipients) && !DmAccepted(w.tables, m)
    ensures var (r, ok) := HandleDm(c, w, m, sender);
      var e := ErrorResponse(DmRefusal(w.tables, m));
      && r == w.(outbox := r.outbox)
      && (ok <==> sender.Some? && Works(c.protocol, w.down, sender.value, e))
      && r.outbox == w.outbox + (if ok then [Delivery(sender.value, e)] else [])
  {
  }

  /**
   * handle_fetch_request pushes only the fetched messages, to the
   * requester, each with the requester's unread count, and every fetched
   * message whose push works.
   */
  lemma FetchPushes(c: Config, w: World, m: ChatMessage, s: SocketId)
    requires Valid(w)
    ensures var r := HandleFetch(c, w, m, s);
      var msgs := FetchResults(w.tables, m);
      var total := Some(T.UnreadCount(w.tables, m.username));
      && |r.outbox| >= |w.outbox| && r.outbox[..|w.outbox|] == w.outbox
      && (forall d | d in r.outbox[|w.outbox|..] :: d.to == s && d.response.unreadCount == total
            && d.response.data.Some? && d.response.data.value in msgs)
      && (forall i | 0 <= i < |msgs| && Works(c.protocol, w.down, s, Pushed(msgs[i], total)) ::
            Delivery(s, Pushed(msgs[i], total)) in r.outbox[|w.outbox|..])
  {
    var msgs := FetchResults(w.tables, m);
    var total := Some(T.UnreadCount(w.tables, m.username));
    var r := HandleFetch(c, w, m, s);
    assert r.outbox[|w.outbox|..] == Sends(c.protocol, w.down, PushAll(s, msgs, total));
    PushAllReach(c.protocol, w.down, s, msgs, total);
  }

  /** A row is marked delivered by a fetch exactly when it already was or it was fetched and its push went through. */
  lemma FetchMarksWhatWasSent(c: Config, w: World, m: ChatMessage, s: SocketId)
    requires Valid(w)
    ensures var r := HandleFetch(c, w, m, s);
      var msgs := FetchResults(w.tables, m);
      var total := Some(T.UnreadCount(w.tables, m.username));
      && r.tables.messages.Keys == w.tables.messages.Keys
      && (forall id | id in w.tables.messages ::
            r.tables.messages[id].delivered <==> (w.tables.messages[id].delivered ||
              exists i | 0 <= i < |msgs| :: msgs[i].messageId == Some(id as int) && Works(c.protocol, w.down, s, Pushed(msgs[i], total))))
  {
    PushAllIds(c.protocol, w.down, s, FetchResults(w.tables, m), Some(T.UnreadCount(w.tables, m.username)));
  }

  /** After a read mark the requester, if online, is pushed the unread count that the marked tables give. */
  lemma MarkReadReportsCount(c: Config, w: World, m: ChatMessage)
    requires Valid(w)
    ensures var r := HandleMarkRead(c, w, m);
      && (!NonEmpty(m.recipients) && !NonEmpty(m.messageIds) ==> r == w)
      && (NonEmpty(m.recipients) ==> r.tables == T.MarkReadFromUser(w.tables, m.username, m.recipients.value[0]))
      && (!NonEmpty(m.recipients) && NonEmpty(m.messageIds) ==> r.tables == T.MarkRead(w.tables, m.messageIds.value, m.username))
      && ((NonEmpty(m.recipients) || NonEmpty(m.messageIds)) && m.username in w.usernames ==>
            var notice := Pushed(UnreadNotice(T.UnreadCount(r.tables, m.username), c.stamp), None);
            r.outbox == w.outbox + (if Works(c.protocol, w.down, w.usernames[m.username], notice)
                                    then [Delivery(w.usernames[m.username], notice)] else []))
      && (m.username !in w.usernames ==> r.outbox == w.outbox)
  {
  }

  /** The WHERE clause of a delete request. */
  function DeleteScope(m: ChatMessage): (clause: T.Where)
    requires NonEmpty(m.messageIds) && NonEmpty(m.recipients)
  {
    T.DeleteClause(m.messageIds.value, m.username, m.recipients.value[0])
  }

  /** Who a deletion concerns: the requester and the recipient of every row it removes. */
  predicate Affected(t: T.Snapshot, m: ChatMessage, u: Text)
    requires NonEmpty(m.messageIds) && NonEmpty(m.recipients)
  {
    u == m.username || exists id | id in t.messages :: T.Holds(DeleteScope(m), id, t.messages[id]) && t.messages[id].recipient == u
  }

  /** How many of u's unread rows a deletion removes. */
  function Decrement(t: T.Snapshot, m: ChatMessage, u: Text): nat
    requires NonEmpty(m.messageIds) && NonEmpty(m.recipients)
  {
    |T.Select(t.messages, T.And(DeleteScope(m), T.UnreadFor(u)), t.nextId)|
  }

  /** The notice a deletion sends u. */
  function DeleteNoticeFor(c: Config, t: T.Snapshot, m: ChatMessage, u: Text): ServerResponse
    requires NonEmpty(m.messageIds) && NonEmpty(m.recipients)
  {
    Pushed(DeleteNotice(m.username, m.messageIds.value, Decrement(t, m, u), c.stamp), None)
  }

  /** The users the handler notifies are exactly the affected ones, each with their own decrement. */
  lemma NotifiedAreAffected(t: T.Snapshot, m: ChatMessage)
    requires T.Valid(t) && NonEmpty(m.messageIds) && NonEmpty(m.recipients)
    ensures var hit := T.Select(t.messages, DeleteScope(m), t.nextId);
      var info := T.DeletedInfo(t.messages, hit);
      && (forall u :: u in Notified(m.username, info) <==> Affected(t, m, u))
      && (forall u :: UnreadDeleted(info, u) == Decrement(t, m, u))
  {
    var clause := DeleteScope(m);
    var hit := T.Select(t.messages, clause, t.nextId);
    var info := T.DeletedInfo(t.messages, hit);
    forall u ensures UnreadDeleted(info, u) == Decrement(t, m, u) {
      UnreadDeletedCounts(t.messages, clause, t.nextId, u);
    }
    forall u ensures u in Notified(m.username, info) <==> Affected(t, m, u) {
      if u != m.username && u in Notified(m.username, info) {
        var i :| 0 <= i < |info| && info[i].0 == u;
        assert hit[i] in hit;
      }
      if u != m.username && Affected(t, m, u) {
        var id :| id in t.messages && T.Holds(clause, id, t.messages[id]) && t.messages[id].recipient == u;
        assert id in hit;
        var i :| 0 <= i < |hit| && hit[i] == id;
        assert info[i].0 == u;
      }
    }
  }

  /**
   * After a deletion every affected user who is online, and only they, is
   * sent one notice, whose decrement is the number of that user's unread
   * rows the deletion removed.
   */
  lemma DeleteNoticesCount(c: Config, w: World, m: ChatMessage)
    requires Valid(w) && NonEmpty(m.messageIds) && NonEmpty(m.recipients)
    ensures var r := HandleDelete(c, w, m);
      && |r.outbox| >= |w.outbox| && r.outbox[..|w.outbox|] == w.outbox
      && (forall d | d in r.outbox[|w.outbox|..] :: exists u | u in w.usernames && Affected(w.tables, m, u) ::
            d == Delivery(w.usernames[u], DeleteNoticeFor(c, w.tables, m, u)))
      && (forall u | u in w.usernames && Affected(w.tables, m, u) && Works(c.protocol, w.down, w.usernames[u], DeleteNoticeFor(c, w.tables, m, u)) ::
            Delivery(w.usernames[u], DeleteNoticeFor(c, w.tables, m, u)) in r.outbox[|w.outbox|..])
  {
    DeleteNoticesSent(c, w, m);
  }

  /** The notices a deletion sends are those to the affected users who are online, each sent when its socket works. */
  lemma DeleteNoticesSent(c: Config, w: World, m: ChatMessage)
    requires Valid(w) && NonEmpty(m.messageIds) && NonEmpty(m.recipients)
    ensures var r := HandleDelete(c, w, m);
      && |r.outbox| >= |w.outbox| && r.outbox[..|w.outbox|] == w.outbox
      && (forall d :: d in r.outbox[|w.outbox|..] <==>
            (exists u | u in w.usernames && Affected(w.tables, m, u) ::
               d == Delivery(w.usernames[u], DeleteNoticeFor(c, w.tables, m, u)))
            && Works(c.protocol, w.down, d.to, d.response))
  {
    var t := w.tables;
    var hit := T.Select(t.messages, DeleteScope(m), t.nextId);
    var info := T.DeletedInfo(t.messages, hit);
    var tries := NoticeTries(Notified(m.username, info), w.usernames, m.username, m.messageIds.value, info, c.stamp);
    var r := HandleDelete(c, w, m);
    assert r.outbox[|w.outbox|..] == Sends(c.protocol, w.down, tries);
    NotifiedAreAffected(t, m);
  }

  /**
   * remove_client: the connection leaves the registry with its name and
   * buffer, and is closed; a logout, when asked for and the connection had
   * a name, reaches exactly the other registered connections whose socket
   * works. An unregistered connection is only closed.
   */
  lemma RemoveClientExactly(c: Config, w: World, s: SocketId, sendLogout: bool)
    requires Valid(w)
    ensures var r := RemoveClient(c, w, s, sendLogout);
      && r.clients == w.clients - {s}
      && r.down == w.down + {s} && r.tables == w.tables && r.handlers == w.handlers
      && (s !in w.clients ==> r == w.(down := w.down + {s}))
      && (s in w.clients ==>
            (r.usernames == w.usernames - {w.clients[s]} && r.buffers == w.buffers - {s}
             && (forall x :: x in r.order <==> x in w.order && x != s)))
      && (s in w.clients && (w.clients[s] == [] || !sendLogout) ==>
            r.outbox == w.outbox && r.pending == w.pending)
      && (s in w.clients && w.clients[s] != [] && sendLogout ==>
            var bye := Pushed(LogoutMessage(w.clients[s], c.stamp), None);
            && |r.outbox| >= |w.outbox| && r.outbox[..|w.outbox|] == w.outbox
            && (forall d | d in r.outbox[|w.outbox|..] :: d.response == bye)
            && (forall x: SocketId :: Delivery(x, bye) in r.outbox[|w.outbox|..] <==>
                  x in w.clients && x != s && Works(c.protocol, w.down, x, bye)))
  {
    if s in w.clients && w.clients[s] != [] && sendLogout {
      var w1 := Unregister(w, s);
      RecipientsReached(c, w1, LogoutMessage(w.clients[s], c.stamp), Some(s));
    }
  }
}
