/**
 * One connection handler: the frames it cuts from its buffer, what each
 * frame does before and after the connection has logged in, and how the
 * connection ends.
 */
module Sessions {
  import opened Octets
  import opened Wrappers
  import opened Schemas
  import opened Sockets
  import Protocols
  import JsonWire
  import T = Tables
  import opened Routing
  import opened Chat

  /** What the handler does after a frame: read the next one, go back to receiving, or close. */
  datatype Flow = Continue | StopBatch | Close

  /** How a batch of received bytes ended. */
  datatype Outcome = Waiting | Stopped | Closed

  /** A response sent straight to the socket; a send that fails raises, which ends the connection. */
  function Reply(c: Config, w: World, s: SocketId, resp: ServerResponse, after: Flow): (r: (World, Flow))
    ensures r.0 == Push(c, w, s, resp).0
    ensures r.1 == if Works(c.protocol, w.down, s, resp) then after else Close
  {
    var (w1, ok) := Push(c, w, s, resp);
    (w1, if ok then after else Close)
  }

  // ---------------------------------------------------------------------
  // Before login
  // ---------------------------------------------------------------------

  /** REGISTER: validate the name, refuse a taken name or a missing password, else create the account. */
  function HandleRegister(c: Config, w: World, s: SocketId, m: ChatMessage): (r: (World, Flow))
    ensures Valid(w) ==> Valid(r.0)
    ensures r.0 == w.(tables := r.0.tables, outbox := r.0.outbox)
    ensures r.1 != StopBatch
  {
    var (valid, problem) := ValidateUsername(m.username);
    if !valid then Reply(c, w, s, ErrorResponse(problem), Continue)
    else if T.UserExists(w.tables, m.username) then Reply(c, w, s, ErrorResponse(USER_EXISTS), Continue)
    else if !HasText(m.password) then Reply(c, w, s, ErrorResponse(PASSWORD_REQUIRED), Continue)
    else
      var (t1, created) := T.CreateUser(w.tables, m.username, c.hash(m.password.value));
      Reply(c, w.(tables := t1), s, if created then NewResponse(REGISTRATION_SUCCESS) else ErrorResponse(REGISTRATION_FAILED), Continue)
  }

  /** "{u} has joined the chat", as a JOIN message from u. */
  function JoinMessage(u: Text, stamp: Stamp): (m: ChatMessage)
    ensures m.username == u && m.content == Format(USER_JOINED, u) && m.messageType == Join && m.recipients.None?
  {
    NewMessage(u, Format(USER_JOINED, u), stamp).(messageType := Join)
  }

  /** The user list: every account, and who is online. */
  function UserList(all: seq<Text>, active: seq<Text>, stamp: Stamp): (m: ChatMessage)
    ensures m.username == SYSTEM && m.content == [] && m.messageType == Login
    ensures m.recipients == Some(all) && m.activeUsers == Some(active)
  {
    NewMessage(SYSTEM, [], stamp).(messageType := Login, recipients := Some(all), activeUsers := Some(active))
  }

  /** "You have {n} unread messages" */
  function UnreadReminder(n: nat, stamp: Stamp): (m: ChatMessage)
    ensures m.username == SYSTEM && m.content == Format(UNREAD_MESSAGES, IntText(n)) && m.messageType == Chat
  {
    NewMessage(SYSTEM, Format(UNREAD_MESSAGES, IntText(n)), stamp)
  }

  /** Register the connection under u, last in login order, and record u as its handler's name. */
  function SignIn(w: World, s: SocketId, u: Text): (r: World)
    requires s in w.handlers && w.handlers[s].None? && u !in w.usernames
    ensures Valid(w) ==> Valid(r)
  {
    var r := w.(clients := w.clients[s := u], usernames := w.usernames[u := s], order := w.order + [s],
                handlers := w.handlers[s := Some(u)]);
    assert Valid(w) ==> s !in w.clients && s !in w.order;
    r
  }

  /** LOGIN_SUCCESS, carrying every account and every online user. */
  function LoginAnswer(c: Config, w: World): (resp: ServerResponse)
    requires Valid(w)
    ensures resp.status == Success && resp.message == LOGIN_SUCCESS && resp.data.Some?
    ensures resp.data.value.recipients.Some? && resp.data.value.activeUsers.Some?
    ensures forall u :: u in resp.data.value.recipients.value <==> T.UserExists(w.tables, u)
    ensures forall u :: u in resp.data.value.activeUsers.value <==> u in w.usernames
  {
    ActiveNamesAreUsernames(w.clients, w.usernames, w.order);
    Response(Success, LOGIN_SUCCESS, Some(UserList(T.AllUsers(w.tables), ActiveNames(w.clients, w.order), c.stamp)), None)
  }

  /** After a login: announce it, answer with the user list, then remind of unread messages. */
  function Welcome(c: Config, w: World, s: SocketId, u: Text): (r: (World, Flow))
    requires Valid(w)
    ensures Valid(r.0)
    ensures r.0.clients == w.clients && r.0.usernames == w.usernames && r.0.order == w.order
    ensures r.0.buffers == w.buffers && r.0.handlers == w.handlers && r.0.tables == w.tables
    ensures r.1 != StopBatch
    ensures var w1 := SendToRecipients(c, w, JoinMessage(u, c.stamp), None).0;
      |r.0.outbox| >= |w1.outbox| && r.0.outbox[..|w1.outbox|] == w1.outbox
  {
    Greet(c, SendToRecipients(c, w, JoinMessage(u, c.stamp), None).0, s, u)
  }

  /** The answer to a login, then the reminder when u has unread messages; the connection closes if the answer cannot be sent. */
  function Greet(c: Config, w: World, s: SocketId, u: Text): (r: (World, Flow))
    requires Valid(w)
    ensures r.0 == w.(outbox := r.0.outbox)
    ensures |r.0.outbox| >= |w.outbox| && r.0.outbox[..|w.outbox|] == w.outbox
    ensures r.1 == if Works(c.protocol, w.down, s, LoginAnswer(c, w)) then Continue else Close
  {
    var (w1, ok) := Push(c, w, s, LoginAnswer(c, w));
    if !ok then (w1, Close)
    else
      var n := T.UnreadCount(w1.tables, u);
      (if n > 0 then Push(c, w1, s, Pushed(UnreadReminder(n, c.stamp), None)).0 else w1, Continue)
  }

  /** LOGIN: a password, the right password and a name not already online; any failure closes. */
  function HandleLogin(c: Config, w: World, s: SocketId, m: ChatMessage): (r: (World, Flow))
    requires Valid(w) && s in w.handlers && w.handlers[s].None?
    ensures Valid(r.0)
    ensures r.0.buffers == w.buffers && r.0.handlers.Keys == w.handlers.Keys && r.0.tables == w.tables
    ensures r.1 != StopBatch
  {
    if !HasText(m.password) then Reply(c, w, s, ErrorResponse(PASSWORD_REQUIRED), Close)
    else if !T.VerifyUser(w.tables, c.hash, m.username, m.password.value) then Reply(c, w, s, ErrorResponse(INVALID_CREDENTIALS), Close)
    else if m.username in w.usernames then Reply(c, w, s, ErrorResponse(USER_ALREADY_LOGGED_IN), Close)
    else Welcome(c, SignIn(w, s, m.username), s, m.username)
  }

  // ---------------------------------------------------------------------
  // After login
  // ---------------------------------------------------------------------

  /** The names other than u, in order. */
  function Others(names: seq<Text>, u: Text): (r: seq<Text>)
    ensures forall x :: x in r <==> x in names && x != u
  {
    if names == [] then []
    else
      var x := names[|names| - 1];
      assert names == names[..|names| - 1] + [x];
      Others(names[..|names| - 1], u) + (if x == u then [] else [x])
  }

  /** "{u} has deleted their account", addressed to everyone online. */
  function AccountDeletedNotice(u: Text, online: seq<Text>, stamp: Stamp): (m: ChatMessage)
    ensures m.username == SYSTEM && m.content == Format(ACCOUNT_DELETED, u)
    ensures m.messageType == DeleteAccount && m.recipients == Some(online)
  {
    NewMessage(SYSTEM, Format(ACCOUNT_DELETED, u), stamp).(messageType := DeleteAccount, recipients := Some(online))
  }

  /**
   * DELETE_ACCOUNT: delete the user's messages and account; if the account
   * existed, tell everyone online and send the new user list, then stop
   * reading this batch.
   */
  function HandleDeleteAccount(c: Config, w: World, u: Text): (r: (World, Flow))
    requires Valid(w)
    ensures Valid(r.0)
    ensures r.0.clients == w.clients && r.0.usernames == w.usernames && r.0.order == w.order
    ensures r.0.buffers == w.buffers && r.0.handlers == w.handlers
  {
    var (t1, deleted) := T.DeleteUser(w.tables, u);
    var w1 := w.(tables := t1);
    if !deleted then (w1, Continue)
    else
      var online := ActiveNames(w1.clients, w1.order);
      var w2 := SendToRecipients(c, w1, AccountDeletedNotice(u, online, c.stamp), None).0;
      var w3 := SendToRecipients(c, w2, UserList(T.AllUsers(w2.tables), Others(online, u), c.stamp), None).0;
      (w3, StopBatch)
  }

  /** A frame from a logged-in connection, dispatched on its kind. */
  function Authenticated(c: Config, w: World, s: SocketId, u: Text, m: ChatMessage): (r: (World, Flow))
    requires Valid(w)
    ensures Valid(r.0)
    ensures r.0.clients == w.clients && r.0.usernames == w.usernames && r.0.order == w.order
    ensures r.0.buffers == w.buffers && r.0.handlers == w.handlers
  {
    match m.messageType
    case Logout => (w, StopBatch)
    case Fetch => (HandleFetch(c, w, m, s), Continue)
    case MarkRead => (HandleMarkRead(c, w, m), Continue)
    case Delete => (HandleDelete(c, w, m), Continue)
    case Dm =>
      if !NonEmpty(m.recipients) then (w, Continue)
      else
        var (w1, ok) := HandleDm(c, w, m, Some(s));
        (w1, if ok then Continue else Close)
    case DeleteAccount => HandleDeleteAccount(c, w, u)
    case _ => (SendToRecipients(c, w, m, None).0, Continue)
  }

  /** One frame: decode it, then act on it as the connection's login state says. */
  function HandleFrame(c: Config, w: World, s: SocketId, frame: Text): (r: (World, Flow))
    requires Valid(w) && s in w.handlers
    ensures Valid(r.0)
    ensures r.0.buffers == w.buffers && r.0.handlers.Keys == w.handlers.Keys
  {
    var d := Protocols.Decode(c.protocol, frame, c.load);
    if d.Err? then (w, Close)
    else
      var m := d.value;
      match w.handlers[s]
      case None =>
        if m.messageType == Register then HandleRegister(c, w, s, m)
        else if m.messageType == Login then HandleLogin(c, w, s, m)
        else Reply(c, w, s, ErrorResponse(LOGIN_REQUIRED), Close)
      case Some(u) => Authenticated(c, w, s, u, m)
  }

  // ---------------------------------------------------------------------
  // The connection's life
  // ---------------------------------------------------------------------

  /** A socket the server has never seen. */
  predicate Fresh(w: World, s: SocketId)
  {
    s !in w.handlers && s !in w.buffers && s !in w.down && s !in w.pending
  }

  /** A new connection: an empty buffer and a handler that has not logged in. */
  function Accept(w: World, s: SocketId): (r: World)
    requires Fresh(w, s)
    ensures Valid(w) ==> Valid(r)
    ensures r == w.(buffers := w.buffers[s := []], handlers := w.handlers[s := None])
  {
    w.(buffers := w.buffers[s := []], handlers := w.handlers[s := None])
  }

  /** The handler ends: its connection is removed, with a logout broadcast if it had logged in under a name. */
  function Finish(c: Config, w: World, s: SocketId): (r: World)
    requires s in w.handlers
    ensures Valid(w) ==> Valid(r)
    ensures s !in r.handlers && s !in r.clients
  {
    var session := w.handlers[s];
    var w1 := RemoveClient(c, w, s, session.Some? && session.value != []);
    w1.(handlers := w1.handlers - {s})
  }

  /** Cut frames from the buffer and act on each, until none is complete or one stops or closes. */
  function Drain(c: Config, w: World, s: SocketId): (r: (World, Outcome))
    requires Valid(w) && s in w.handlers && s in w.buffers
    ensures Valid(r.0)
    ensures r.1 != Closed ==> s in r.0.handlers && s in r.0.buffers
    ensures r.1 == Closed ==> s !in r.0.handlers
    decreases |w.buffers[s]|
  {
    var (frame, rest) := Protocols.Extract(c.protocol, w.buffers[s]);
    Protocols.ExtractShrinks(c.protocol, w.buffers[s]);
    var w1 := w.(buffers := w.buffers[s := rest]);
    if frame.None? then (w1, Waiting)
    else
      var (w2, flow) := HandleFrame(c, w1, s, frame.value);
      match flow
      case Continue => Drain(c, w2, s)
      case StopBatch => (w2, Stopped)
      case Close => (Finish(c, w2, s), Closed)
  }

  /**
   * recv returned data: no data, a closed socket or a missing buffer end
   * the handler; otherwise the data is appended and drained. True when
   * the connection ended.
   */
  function Receive(c: Config, w: World, s: SocketId, data: Text): (r: (World, bool))
    requires Valid(w) && s in w.handlers
    ensures Valid(r.0)
    ensures r.1 <==> s !in r.0.handlers
  {
    if data == [] || s in w.down || s !in w.buffers then (Finish(c, w, s), true)
    else
      var (w1, out) := Drain(c, w.(buffers := w.buffers[s := w.buffers[s] + data]), s);
      (w1, out == Closed)
  }

  // ---------------------------------------------------------------------
  // Properties
  // ---------------------------------------------------------------------

  /** A frame that does not decode ends the connection and changes nothing. */
  lemma UndecodableCloses(c: Config, w: World, s: SocketId, frame: Text)
    requires Valid(w) && s in w.handlers && Protocols.Decode(c.protocol, frame, c.load).Err?
    ensures HandleFrame(c, w, s, frame) == (w, Close)
  {
  }

  /**
   * Before login, any frame but REGISTER or LOGIN is answered with
   * LOGIN_REQUIRED and the connection closes; no table, registration or
   * other connection is touched.
   */
  lemma UnauthenticatedRefused(c: Config, w: World, s: SocketId, frame: Text)
    requires Valid(w) && s in w.handlers && w.handlers[s].None?
    requires var d := Protocols.Decode(c.protocol, frame, c.load);
      d.Ok? && d.value.messageType != Register && d.value.messageType != Login
    ensures var (r, flow) := HandleFrame(c, w, s, frame);
      var refusal := ErrorResponse(LOGIN_REQUIRED);
      && flow == Close
      && r == w.(outbox := r.outbox)
      && r.outbox == w.outbox + (if Works(c.protocol, w.down, s, refusal) then [Delivery(s, refusal)] else [])
  {
  }

  /** Whether REGISTER creates the account: a valid, free name and a password. */
  predicate RegisterAccepted(t: T.Snapshot, m: ChatMessage)
  {
    ValidateUsername(m.username).0 && !T.UserExists(t, m.username) && HasText(m.password)
  }

  /**
   * REGISTER creates the account, with the password's digest, exactly when
   * it is accepted, and otherwise leaves the tables alone.
   */
  lemma RegisterCreates(c: Config, w: World, s: SocketId, m: ChatMessage)
    requires Valid(w)
    ensures var r := HandleRegister(c, w, s, m).0;
      && (RegisterAccepted(w.tables, m) ==>
            && r.tables == w.tables.(accounts := w.tables.accounts + [T.Account(m.username, c.hash(m.password.value))])
            && T.VerifyUser(r.tables, c.hash, m.username, m.password.value))
      && (!RegisterAccepted(w.tables, m) ==> r.tables == w.tables)
  {
    if RegisterAccepted(w.tables, m) {
      var t1 := T.CreateUser(w.tables, m.username, c.hash(m.password.value)).0;
      assert t1.accounts[|w.tables.accounts|] == T.Account(m.username, c.hash(m.password.value));
    }
  }

  /**
   * REGISTER sends one reply, to the connection, that succeeds exactly
   * when the account is created; a name the validator refuses is answered
   * with its reason. The connection stays open unless the reply cannot be
   * sent.
   */
  lemma RegisterReplies(c: Config, w: World, s: SocketId, m: ChatMessage)
    requires Valid(w)
    ensures var (r, flow) := HandleRegister(c, w, s, m);
      flow == Continue ==>
        && r.outbox[|w.outbox|].to == s
        && (r.outbox[|w.outbox|].response.status == Success <==> RegisterAccepted(w.tables, m))
        && (!ValidateUsername(m.username).0 ==> r.outbox[|w.outbox|].response == ErrorResponse(ValidateUsername(m.username).1))
  {
    RegisterAnswers(c, w, s, m);
  }

  /** REGISTER leaves earlier output alone and adds one reply exactly when the connection stays open. */
  lemma RegisterAnswers(c: Config, w: World, s: SocketId, m: ChatMessage)
    requires Valid(w)
    ensures var (r, flow) := HandleRegister(c, w, s, m);
      && |r.outbox| >= |w.outbox| && r.outbox[..|w.outbox|] == w.outbox
      && (flow == Close <==> r.outbox == w.outbox)
      && (flow == Continue <==> |r.outbox| == |w.outbox| + 1)
  {
  }

  /** Whether LOGIN succeeds: a password, the right one, and a name not online already. */
  predicate LoginAccepted(c: Config, w: World, m: ChatMessage)
  {
    HasText(m.password) && T.VerifyUser(w.tables, c.hash, m.username, m.password.value) && m.username !in w.usernames
  }

  /** A refused LOGIN registers nothing, answers at most once, to the connection, and closes it. */
  lemma LoginRefused(c: Config, w: World, s: SocketId, m: ChatMessage)
    requires Valid(w) && s in w.handlers && w.handlers[s].None? && !LoginAccepted(c, w, m)
    ensures var (r, flow) := HandleLogin(c, w, s, m);
      && flow == Close
      && r == w.(outbox := r.outbox)
      && (r.outbox == w.outbox || (|r.outbox| == |w.outbox| + 1 && r.outbox[..|w.outbox|] == w.outbox
            && r.outbox[|w.outbox|].to == s && r.outbox[|w.outbox|].response.status == Error))
  {
  }

  /** The join notice reaches every online connection whose send works, ahead of anything else the welcome sends. */
  lemma WelcomeAnnounces(c: Config, w: World, s: SocketId, u: Text)
    requires Valid(w)
    ensures var r := Welcome(c, w, s, u).0;
      var join := Pushed(JoinMessage(u, c.stamp), None);
      && |r.outbox| >= |w.outbox| && r.outbox[..|w.outbox|] == w.outbox
      && (forall x: SocketId | x in w.order && Works(c.protocol, w.down, x, join) :: Delivery(x, join) in r.outbox[|w.outbox|..])
  {
    var join := JoinMessage(u, c.stamp);
    var w1 := SendToRecipients(c, w, join, None).0;
    RecipientsReached(c, w, join, None);
    var r := Welcome(c, w, s, u).0;
    AllStillSent(c.protocol, w.down, w.order, Pushed(join, None), w.outbox, w1.outbox, r.outbox);
  }

  /** What a send reached stays sent when more is sent after it. */
  lemma AllStillSent(p: Protocols.Protocol, down: set<SocketId>, xs: seq<SocketId>, resp: ServerResponse,
                     a: seq<Delivery>, b: seq<Delivery>, c: seq<Delivery>)
    requires |a| <= |b| <= |c| && b[..|a|] == a && c[..|b|] == b
    requires forall x: SocketId | x in xs && Works(p, down, x, resp) :: Delivery(x, resp) in b[|a|..]
    ensures c[..|a|] == a
    ensures forall x: SocketId | x in xs && Works(p, down, x, resp) :: Delivery(x, resp) in c[|a|..]
  {
    assert c[..|a|] == b[..|a|];
    forall x: SocketId | x in xs && Works(p, down, x, resp) ensures Delivery(x, resp) in c[|a|..] {
      StillSent(b, c, |a|, Delivery(x, resp));
    }
  }

  /** What was sent after position k stays there when more is sent. */
  lemma StillSent(before: seq<Delivery>, after: seq<Delivery>, k: nat, d: Delivery)
    requires |before| <= |after| && after[..|before|] == before && k <= |before| && d in before[k..]
    ensures d in after[k..]
  {
    var i :| k <= i < |before| && before[i] == d;
    assert after[i] == d;
  }

  /**
   * An accepted LOGIN registers the connection under the name, last in
   * login order, and keeps the connection open exactly when LOGIN_SUCCESS
   * with the user lists can be sent to it.
   */
  lemma LoginAcceptedOutcome(c: Config, w: World, s: SocketId, m: ChatMessage)
    requires Valid(w) && s in w.handlers && w.handlers[s].None? && LoginAccepted(c, w, m)
    ensures var (r, flow) := HandleLogin(c, w, s, m);
      var u := m.username;
      && r.clients == w.clients[s := u] && r.usernames == w.usernames[u := s]
      && r.order == w.order + [s] && r.handlers == w.handlers[s := Some(u)]
      && r.tables == w.tables
      && (flow == Continue <==> Works(c.protocol, w.down, s, LoginAnswer(c, SignIn(w, s, u))))
      && flow != StopBatch
  {
    var u := m.username;
    var signed := SignIn(w, s, u);
    var w1 := SendToRecipients(c, signed, JoinMessage(u, c.stamp), None).0;
    assert LoginAnswer(c, w1) == LoginAnswer(c, signed);
  }

  /** After an accepted LOGIN the join notice reaches every online connection, this one included, whose send works. */
  lemma LoginAnnounced(c: Config, w: World, s: SocketId, m: ChatMessage)
    requires Valid(w) && s in w.handlers && w.handlers[s].None? && LoginAccepted(c, w, m)
    ensures var r := HandleLogin(c, w, s, m).0;
      var join := Pushed(JoinMessage(m.username, c.stamp), None);
      forall x: SocketId | x in w.order + [s] && Works(c.protocol, w.down, x, join) :: Delivery(x, join) in r.outbox
  {
    var signed := SignIn(w, s, m.username);
    WelcomeAnnounces(c, signed, s, m.username);
  }

  /**
   * A frame stops the batch, keeping the connection registered, exactly
   * when a logged-in connection sends LOGOUT, or DELETE_ACCOUNT while its
   * account exists.
   */
  lemma StopBatchKeepsSession(c: Config, w: World, s: SocketId, frame: Text)
    requires Valid(w) && s in w.handlers
    ensures var (r, flow) := HandleFrame(c, w, s, frame);
      var d := Protocols.Decode(c.protocol, frame, c.load);
      && (flow == StopBatch <==>
            d.Ok? && w.handlers[s].Some? &&
            (d.value.messageType == Logout || (d.value.messageType == DeleteAccount && T.UserExists(w.tables, w.handlers[s].value))))
      && (flow == StopBatch ==>
            r.clients == w.clients && r.usernames == w.usernames && r.order == w.order && r.handlers == w.handlers)
  {
    var d := Protocols.Decode(c.protocol, frame, c.load);
    if d.Ok? && w.handlers[s].Some? {
      AuthenticatedStops(c, w, s, w.handlers[s].value, d.value);
    }
  }

  /** Among the frames of a logged-in connection, only LOGOUT and the deletion of an existing account stop the batch. */
  lemma AuthenticatedStops(c: Config, w: World, s: SocketId, u: Text, m: ChatMessage)
    requires Valid(w)
    ensures var (r, flow) := Authenticated(c, w, s, u, m);
      flow == StopBatch <==> m.messageType == Logout || (m.messageType == DeleteAccount && T.UserExists(w.tables, u))
  {
    if m.messageType == DeleteAccount {
      T.DeleteUserExactly(w.tables, u);
    }
  }

  /** DELETE_ACCOUNT leaves no account and no message of the user, and stops the batch exactly when the account existed. */
  lemma AccountDeleted(c: Config, w: World, u: Text)
    requires Valid(w)
    ensures var (r, flow) := HandleDeleteAccount(c, w, u);
      && !T.UserExists(r.tables, u)
      && (forall id | id in r.tables.messages :: r.tables.messages[id].sender != u && r.tables.messages[id].recipient != u)
      && (forall v | v != u :: T.UserExists(r.tables, v) <==> T.UserExists(w.tables, v))
      && (flow == StopBatch <==> T.UserExists(w.tables, u))
  {
    T.DeleteUserExactly(w.tables, u);
  }

  /** A notice addressed to everyone online reaches every online connection whose send works. */
  lemma EveryoneReached(c: Config, w: World, m: ChatMessage)
    requires Valid(w) && m.messageType != Dm && m.recipients == Some(ActiveNames(w.clients, w.order))
    ensures var r := SendToRecipients(c, w, m, None).0;
      forall x: SocketId | x in w.order && Works(c.protocol, w.down, x, Pushed(m, None)) :: Delivery(x, Pushed(m, None)) in r.outbox[|w.outbox|..]
  {
    RecipientsReached(c, w, m, None);
    forall x: SocketId | x in w.order && NonEmpty(m.recipients) ensures w.clients[x] in m.recipients.value {
      var i :| 0 <= i < |w.order| && w.order[i] == x;
      assert ActiveNames(w.clients, w.order)[i] == w.clients[x];
    }
  }

  /**
   * Any other kind of frame from a logged-in connection is relayed along
   * its own route with no socket excluded: to its online recipients, or,
   * with none, to every connection, the sender's own included. The
   * handler carries on.
   */
  lemma RelayedAlongRoute(c: Config, w: World, s: SocketId, u: Text, m: ChatMessage)
    requires Valid(w)
    requires m.messageType !in {Logout, Fetch, MarkRead, Delete, Dm, DeleteAccount}
    ensures var (r, flow) := Authenticated(c, w, s, u, m);
      && flow == Continue
      && r == SendToRecipients(c, w, m, None).0
      && (forall x: SocketId :: Delivery(x, Pushed(m, None)) in r.outbox[|w.outbox|..] <==>
            Works(c.protocol, w.down, x, Pushed(m, None)) &&
            (if NonEmpty(m.recipients) then exists v | v in m.recipients.value :: v in w.usernames && w.usernames[v] == x
             else x in w.order))
  {
    RecipientsReached(c, w, m, None);
  }

  /** When the account existed, the deletion notice reaches every online connection whose send works. */
  lemma AccountDeletedAnnounced(c: Config, w: World, u: Text)
    requires Valid(w) && T.UserExists(w.tables, u)
    ensures var r := HandleDeleteAccount(c, w, u).0;
      var notice := Pushed(AccountDeletedNotice(u, ActiveNames(w.clients, w.order), c.stamp), None);
      forall x: SocketId | x in w.order && Works(c.protocol, w.down, x, notice) :: Delivery(x, notice) in r.outbox
  {
    var w1 := w.(tables := T.DeleteUser(w.tables, u).0);
    var m := AccountDeletedNotice(u, ActiveNames(w1.clients, w1.order), c.stamp);
    var w2 := SendToRecipients(c, w1, m, None).0;
    EveryoneReached(c, w1, m);
    var update := UserList(T.AllUsers(w2.tables), Others(ActiveNames(w1.clients, w1.order), u), c.stamp);
    RecipientsReached(c, w2, update, None);
    var r := HandleDeleteAccount(c, w, u).0;
    assert r == SendToRecipients(c, w2, update, None).0;
    AllStillSent(c.protocol, w.down, w.order, Pushed(m, None), w1.outbox, w2.outbox, r.outbox);
    forall x: SocketId | x in w.order && Works(c.protocol, w.down, x, Pushed(m, None))
      ensures Delivery(x, Pushed(m, None)) in r.outbox
    {
      assert Delivery(x, Pushed(m, None)) in r.outbox[|w1.outbox|..];
    }
  }

  /**
   * Under the JSON protocol a handler that goes back to waiting has no
   * newline, hence no complete frame, left in its buffer. (The binary
   * framing can go back to waiting right after discarding a bad header
   * byte, with a complete frame behind it; see
   * CustomWire.ResyncWaitsOnFrame.)
   */
  lemma {:induction false} DrainLeavesNoFrame(c: Config, w: World, s: SocketId)
    requires Valid(w) && s in w.handlers && s in w.buffers && c.protocol == Protocols.Json
    ensures var (r, out) := Drain(c, w, s);
      out == Waiting ==> s in r.buffers && NEWLINE !in r.buffers[s]
    decreases |w.buffers[s]|
  {
    var (frame, rest) := Protocols.Extract(c.protocol, w.buffers[s]);
    Protocols.ExtractShrinks(c.protocol, w.buffers[s]);
    var w1 := w.(buffers := w.buffers[s := rest]);
    if frame.Some? {
      var (w2, flow) := HandleFrame(c, w1, s, frame.value);
      if flow == Continue {
        DrainLeavesNoFrame(c, w2, s);
      }
    }
  }
}
