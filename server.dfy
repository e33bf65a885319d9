/**
 * The chat server as an object. Its fields are the connection registry,
 * the receive buffers, the name each connection handler has
 * authenticated, the sockets whose sends fail, every response that
 * reached a socket, the removals failed broadcasts scheduled, and the
 * message store. Every method is proved to leave the object in the state
 * the matching function of `Chat` or `Sessions` computes from the state
 * before, so every property proved of those functions holds of the
 * object.
 */
module Server {
  import opened Octets
  import opened Wrappers
  import opened Schemas
  import opened Sockets
  import Protocols
  import T = Tables
  import Store
  import opened Routing
  import opened Chat
  import opened Sessions

  // ---------------------------------------------------------------------
  // One loop iteration at a time
  // ---------------------------------------------------------------------

  lemma SendsSnoc(p: Protocols.Protocol, down: set<SocketId>, tries: seq<Delivery>, d: Delivery)
    ensures Sends(p, down, tries + [d]) == Sends(p, down, tries) + (if Works(p, down, d.to, d.response) then [d] else [])
    ensures Failures(p, down, tries + [d]) == Failures(p, down, tries) + (if Works(p, down, d.to, d.response) then [] else [d.to])
  {
    assert (tries + [d])[..|tries|] == tries;
  }

  lemma FanoutSnoc(ts: seq<SocketId>, x: SocketId, resp: ServerResponse)
    ensures Fanout(ts + [x], resp) == Fanout(ts, resp) + [Delivery(x, resp)]
  {
  }

  /** The sends of the loop over named recipients, one per recipient that is online and not excluded. */
  ghost function NamedTries(rs: seq<Text>, usernames: map<Text, SocketId>, exclude: Option<SocketId>, resp: ServerResponse): seq<Delivery>
  {
    if rs == [] then []
    else
      var r := rs[|rs| - 1];
      NamedTries(rs[..|rs| - 1], usernames, exclude, resp) +
        (if r in usernames && Some(usernames[r]) != exclude then [Delivery(usernames[r], resp)] else [])
  }

  lemma NamedTriesStep(rs: seq<Text>, i: nat, usernames: map<Text, SocketId>, exclude: Option<SocketId>, resp: ServerResponse)
    requires i < |rs|
    ensures NamedTries(rs[..i + 1], usernames, exclude, resp) == NamedTries(rs[..i], usernames, exclude, resp) +
      (if rs[i] in usernames && Some(usernames[rs[i]]) != exclude then [Delivery(usernames[rs[i]], resp)] else [])
  {
    assert rs[..i + 1][..i] == rs[..i];
  }

  /** The loop's sends are the fan-out of the message to its routed targets. */
  lemma {:induction false} NamedTriesFanout(rs: seq<Text>, usernames: map<Text, SocketId>, exclude: Option<SocketId>, resp: ServerResponse)
    ensures NamedTries(rs, usernames, exclude, resp) == Fanout(RecipientTargets(rs, usernames, exclude), resp)
  {
    if rs != [] {
      var front := rs[..|rs| - 1];
      var r := rs[|rs| - 1];
      NamedTriesFanout(front, usernames, exclude, resp);
      if r in usernames && Some(usernames[r]) != exclude {
        FanoutSnoc(RecipientTargets(front, usernames, exclude), usernames[r], resp);
      }
    }
  }

  /** The sends of the loop over the connections, one per connection that is not excluded. */
  ghost function BroadcastTries(xs: seq<SocketId>, exclude: Option<SocketId>, resp: ServerResponse): seq<Delivery>
  {
    if xs == [] then []
    else
      var x := xs[|xs| - 1];
      BroadcastTries(xs[..|xs| - 1], exclude, resp) + (if Some(x) != exclude then [Delivery(x, resp)] else [])
  }

  lemma BroadcastTriesStep(xs: seq<SocketId>, i: nat, exclude: Option<SocketId>, resp: ServerResponse)
    requires i < |xs|
    ensures BroadcastTries(xs[..i + 1], exclude, resp) == BroadcastTries(xs[..i], exclude, resp) +
      (if Some(xs[i]) != exclude then [Delivery(xs[i], resp)] else [])
  {
    assert xs[..i + 1][..i] == xs[..i];
  }

  lemma {:induction false} BroadcastTriesFanout(xs: seq<SocketId>, exclude: Option<SocketId>, resp: ServerResponse)
    ensures BroadcastTries(xs, exclude, resp) == Fanout(BroadcastTargets(xs, exclude), resp)
  {
    if xs != [] {
      var front := xs[..|xs| - 1];
      var x := xs[|xs| - 1];
      BroadcastTriesFanout(front, exclude, resp);
      if Some(x) != exclude {
        FanoutSnoc(BroadcastTargets(front, exclude), x, resp);
      }
    }
  }

  lemma DeliveredIdsSnoc(ds: seq<Delivery>, d: Delivery)
    ensures DeliveredIds(ds + [d]) == DeliveredIds(ds) +
      (if d.response.data.Some? && d.response.data.value.messageId.Some? then [d.response.data.value.messageId.value] else [])
  {
    assert (ds + [d])[..|ds|] == ds;
  }

  lemma MarkAllDeliveredSnoc(t: T.Snapshot, ids: seq<int>, x: int)
    ensures T.MarkAllDelivered(t, ids + [x]) == T.MarkDelivered(T.MarkAllDelivered(t, ids), x)
  {
    assert (ids + [x])[..|ids|] == ids;
  }

  lemma PushAllStep(s: SocketId, msgs: seq<ChatMessage>, i: nat, unread: Option<int>)
    requires i < |msgs|
    ensures PushAll(s, msgs[..i + 1], unread) == PushAll(s, msgs[..i], unread) + [Delivery(s, Pushed(msgs[i], unread))]
  {
  }

  lemma NotifiedStep(requester: Text, info: seq<(Text, bool)>, i: nat)
    requires i < |info|
    ensures Notified(requester, info[..i + 1]) == AddOnce(Notified(requester, info[..i]), info[i].0)
    ensures forall u :: UnreadDeleted(info[..i + 1], u) == UnreadDeleted(info[..i], u) + (if info[i] == (u, true) then 1 else 0)
  {
    assert info[..i + 1][..i] == info[..i];
  }

  lemma NoticeTriesStep(users: seq<Text>, j: nat, usernames: map<Text, SocketId>, requester: Text, ids: seq<int>,
                        info: seq<(Text, bool)>, stamp: Stamp)
    requires j < |users|
    ensures NoticeTries(users[..j + 1], usernames, requester, ids, info, stamp) ==
      NoticeTries(users[..j], usernames, requester, ids, info, stamp) +
      (if users[j] in usernames
       then [Delivery(usernames[users[j]], Pushed(DeleteNotice(requester, ids, UnreadDeleted(info, users[j]), stamp), None))]
       else [])
  {
    assert users[..j + 1][..j] == users[..j];
  }

  lemma AppendAssoc<X>(a: seq<X>, b: seq<X>, c: seq<X>)
    ensures a + (b + c) == (a + b) + c
  {
  }

  /** dict.get(u, 0) */
  function GetOrZero(m: map<Text, nat>, u: Text): nat
  {
    if u in m then m[u] else 0
  }

  // ---------------------------------------------------------------------
  // The server
  // ---------------------------------------------------------------------

  class ChatServer {
    var clients: map<SocketId, Text>
    var usernames: map<Text, SocketId>
    var order: seq<SocketId>
    var buffers: map<SocketId, Text>
    var handlers: map<SocketId, Option<Text>>
    var down: set<SocketId>
    var outbox: seq<Delivery>
    var pending: seq<SocketId>
    const protocol: Protocols.Protocol
    const load: Text -> Option<ChatMessage>
    const stamp: Stamp
    const db: Store.Database

    /** What the server was set up with. */
    function Setup(): Config
    {
      Config(protocol, load, db.hash, stamp)
    }

    /** The server's state as a value. */
    function State(): World
      reads this, db
    {
      World(clients, usernames, order, buffers, handlers, down, outbox, pending, db.Snapshot())
    }

    ghost predicate Valid()
      reads this, db
    {
      Chat.Valid(State())
    }

    /** __init__: no connections yet, over a freshly created store. */
    constructor(protocol: Protocols.Protocol, load: Text -> Option<ChatMessage>, hash: Text -> Text, stamp: Stamp)
      ensures fresh(db) && Valid()
      ensures State() == Initial() && Setup() == Config(protocol, load, hash, stamp)
    {
      clients, usernames, order := map[], map[], [];
      buffers, handlers, down := map[], map[], {};
      outbox, pending := [], [];
      this.protocol, this.load, this.stamp := protocol, load, stamp;
      db := new Store.Database(hash);
    }

    // -------------------------------------------------------------------
    // Sends
    // -------------------------------------------------------------------

    /** send_to_client: false when the send raises. */
    method Push(s: SocketId, resp: ServerResponse) returns (ok: bool)
      modifies this`outbox
      ensures (State(), ok) == Chat.Push(Setup(), old(State()), s, resp)
      ensures ok == Works(protocol, down, s, resp) && outbox == old(outbox) + (if ok then [Delivery(s, resp)] else [])
    {
      ok := Works(protocol, down, s, resp);
      if ok {
        outbox := outbox + [Delivery(s, resp)];
      }
      assert State() == Chat.Push(Setup(), old(State()), s, resp).0;
    }

    /** send_error: false when there is no socket or the send raises. */
    method SendError(to: Option<SocketId>, text: Text) returns (ok: bool)
      modifies this`outbox
      ensures (State(), ok) == Chat.SendError(Setup(), old(State()), to, text)
    {
      if to.None? {
        ok := false;
      } else {
        ok := Push(to.value, ErrorResponse(text));
      }
    }

    /**
     * One send of a fan-out, extending the sends so far by one attempt; a
     * socket whose send fails is scheduled for removal.
     */
    method Spread1(x: SocketId, resp: ServerResponse, ghost sentBefore: seq<Delivery>, ghost failedBefore: seq<SocketId>,
                   ghost tries: seq<Delivery>)
      requires outbox == sentBefore + Sends(protocol, down, tries)
      requires pending == failedBefore + Failures(protocol, down, tries)
      modifies this`outbox, this`pending
      ensures outbox == sentBefore + Sends(protocol, down, tries + [Delivery(x, resp)])
      ensures pending == failedBefore + Failures(protocol, down, tries + [Delivery(x, resp)])
    {
      var d := Delivery(x, resp);
      SendsSnoc(protocol, down, tries, d);
      AppendAssoc(sentBefore, Sends(protocol, down, tries), if Works(protocol, down, x, resp) then [d] else []);
      AppendAssoc(failedBefore, Failures(protocol, down, tries), if Works(protocol, down, x, resp) then [] else [x]);
      var ok := Push(x, resp);
      if !ok {
        pending := pending + [x];
      }
    }

    /** The loop of send_to_recipients over the named recipients. */
    method SendToNamed(rs: seq<Text>, resp: ServerResponse, exclude: Option<SocketId>)
      modifies this`outbox, this`pending
      ensures outbox == old(outbox) + Sends(protocol, down, NamedTries(rs, usernames, exclude, resp))
      ensures pending == old(pending) + Failures(protocol, down, NamedTries(rs, usernames, exclude, resp))
    {
      var i := 0;
      ghost var tries := [];
      while i < |rs|
        invariant 0 <= i <= |rs|
        invariant tries == NamedTries(rs[..i], usernames, exclude, resp)
        invariant outbox == old(outbox) + Sends(protocol, down, tries)
        invariant pending == old(pending) + Failures(protocol, down, tries)
      {
        NamedTriesStep(rs, i, usernames, exclude, resp);
        if rs[i] in usernames && Some(usernames[rs[i]]) != exclude {
          Spread1(usernames[rs[i]], resp, old(outbox), old(pending), tries);
          tries := tries + [Delivery(usernames[rs[i]], resp)];
        }
        i := i + 1;
      }
      assert rs[..i] == rs;
    }

    /** The loop of send_to_recipients over a copy of the connections. */
    method Broadcast(resp: ServerResponse, exclude: Option<SocketId>)
      modifies this`outbox, this`pending
      ensures outbox == old(outbox) + Sends(protocol, down, BroadcastTries(order, exclude, resp))
      ensures pending == old(pending) + Failures(protocol, down, BroadcastTries(order, exclude, resp))
    {
      var copy := order;
      var i := 0;
      ghost var tries := [];
      while i < |copy|
        invariant 0 <= i <= |copy|
        invariant tries == BroadcastTries(copy[..i], exclude, resp)
        invariant outbox == old(outbox) + Sends(protocol, down, tries)
        invariant pending == old(pending) + Failures(protocol, down, tries)
      {
        BroadcastTriesStep(copy, i, exclude, resp);
        if Some(copy[i]) != exclude {
          Spread1(copy[i], resp, old(outbox), old(pending), tries);
          tries := tries + [Delivery(copy[i], resp)];
        }
        i := i + 1;
      }
      assert copy[..i] == copy;
    }

    /**
     * send_to_recipients: a DM goes through handle_dm; otherwise each
     * online recipient, or without recipients each connection, other than
     * the excluded one, is sent the message in turn.
     */
    method SendToRecipients(m: ChatMessage, exclude: Option<SocketId>) returns (ok: bool)
      requires Valid()
      modifies this`outbox, this`pending, db
      ensures (State(), ok) == Chat.SendToRecipients(Setup(), old(State()), m, exclude)
      ensures Valid()
    {
      if m.messageType == Dm {
        ok := HandleDm(m, exclude);
      } else if NonEmpty(m.recipients) {
        SendToNamed(m.recipients.value, Pushed(m, None), exclude);
        NamedTriesFanout(m.recipients.value, usernames, exclude, Pushed(m, None));
        ok := true;
      } else {
        Broadcast(Pushed(m, None), exclude);
        BroadcastTriesFanout(order, exclude, Pushed(m, None));
        ok := true;
      }
    }

    // -------------------------------------------------------------------
    // Direct messages
    // -------------------------------------------------------------------

    /**
     * handle_dm: nothing without recipients; an error for a blank message
     * or for the first recipient without an account; otherwise the message
     * is stored, pushed to each online recipient in turn, and echoed to its
     * sender.
     */
    method HandleDm(m: ChatMessage, sender: Option<SocketId>) returns (ok: bool)
      requires Valid()
      modifies this`outbox, db
      ensures (State(), ok) == Chat.HandleDm(Setup(), old(State()), m, sender)
      ensures Valid()
    {
      if !NonEmpty(m.recipients) {
        return true;
      }
      if m.content == [] || AllSpace(m.content) {
        ok := SendError(sender, EMPTY_MESSAGE);
        return;
      }
      var rs := m.recipients.value;
      var i := 0;
      while i < |rs|
        invariant 0 <= i <= |rs|
        invariant forall j | 0 <= j < i :: T.UserExists(db.Snapshot(), rs[j])
      {
        if !T.UserExists(db.Snapshot(), rs[i]) {
          assert MissingRecipient(db.Snapshot(), rs) == Some(rs[i]);
          ok := SendError(sender, NoSuchUser(rs[i]));
          return;
        }
        i := i + 1;
      }
      assert MissingRecipient(db.Snapshot(), rs).None?;
      Store(m);
      ok := true;
    }

    /** The accepted DM's half of handle_dm: store, push to each online recipient, mark, echo. */
    method Store(m: ChatMessage)
      requires Valid() && NonEmpty(m.recipients)
      modifies this`outbox, db
      ensures State() == Dispatch(Setup(), old(State()), m)
      ensures Valid()
    {
      var id := db.StoreMessage(m);
      var m' := m.(messageId := Some(id.value as int));
      var resp := Pushed(m', None);
      Deliver(m.recipients.value, resp);
      if m.username in usernames {
        var echoed := Push(usernames[m.username], resp);
      }
    }

    /** The loop of handle_dm over the recipients: push to each online one, and mark the row after each push that works. */
    method Deliver(rs: seq<Text>, resp: ServerResponse)
      requires db.Valid()
      modifies this`outbox, db
      ensures db.Valid()
      ensures var sent := Sends(protocol, down, Fanout(RecipientTargets(rs, usernames, None), resp));
        outbox == old(outbox) + sent && db.Snapshot() == T.MarkAllDelivered(old(db.Snapshot()), DeliveredIds(sent))
    {
      var i := 0;
      ghost var tries := [];
      while i < |rs|
        invariant 0 <= i <= |rs|
        invariant tries == NamedTries(rs[..i], usernames, None, resp)
        invariant db.Valid()
        invariant outbox == old(outbox) + Sends(protocol, down, tries)
        invariant db.Snapshot() == T.MarkAllDelivered(old(db.Snapshot()), DeliveredIds(Sends(protocol, down, tries)))
      {
        NamedTriesStep(rs, i, usernames, None, resp);
        if rs[i] in usernames {
          PushAndMark(usernames[rs[i]], resp, old(outbox), old(db.Snapshot()), tries);
          tries := tries + [Delivery(usernames[rs[i]], resp)];
        }
        i := i + 1;
      }
      assert rs[..i] == rs;
      NamedTriesFanout(rs, usernames, None, resp);
    }

    /** One push of handle_dm or handle_fetch_request; the message's row is marked delivered when the push works. */
    method PushAndMark(x: SocketId, resp: ServerResponse, ghost sentBefore: seq<Delivery>, ghost t0: T.Snapshot,
                       ghost tries: seq<Delivery>)
      requires db.Valid()
      requires outbox == sentBefore + Sends(protocol, down, tries)
      requires db.Snapshot() == T.MarkAllDelivered(t0, DeliveredIds(Sends(protocol, down, tries)))
      modifies this`outbox, db
      ensures db.Valid()
      ensures outbox == sentBefore + Sends(protocol, down, tries + [Delivery(x, resp)])
      ensures db.Snapshot() == T.MarkAllDelivered(t0, DeliveredIds(Sends(protocol, down, tries + [Delivery(x, resp)])))
    {
      var d := Delivery(x, resp);
      SendsSnoc(protocol, down, tries, d);
      AppendAssoc(sentBefore, Sends(protocol, down, tries), if Works(protocol, down, x, resp) then [d] else []);
      ghost var ids := DeliveredIds(Sends(protocol, down, tries));
      var sent := Push(x, resp);
      if sent {
        DeliveredIdsSnoc(Sends(protocol, down, tries), d);
        if resp.data.Some? && resp.data.value.messageId.Some? {
          var id := resp.data.value.messageId.value;
          assert DeliveredIds(Sends(protocol, down, tries + [d])) == ids + [id];
          MarkAllDeliveredSnoc(t0, ids, id);
          db.MarkDelivered(id);
        } else {
          assert DeliveredIds(Sends(protocol, down, tries + [d])) == ids;
        }
      } else {
        assert Sends(protocol, down, tries + [d]) == Sends(protocol, down, tries);
      }
    }

    /** One notice of a deletion, extending the sends so far by one attempt. */
    method Send1(x: SocketId, resp: ServerResponse, ghost sentBefore: seq<Delivery>, ghost tries: seq<Delivery>)
      requires outbox == sentBefore + Sends(protocol, down, tries)
      modifies this`outbox
      ensures outbox == sentBefore + Sends(protocol, down, tries + [Delivery(x, resp)])
    {
      var d := Delivery(x, resp);
      SendsSnoc(protocol, down, tries, d);
      AppendAssoc(sentBefore, Sends(protocol, down, tries), if Works(protocol, down, x, resp) then [d] else []);
      var ok := Push(x, resp);
    }

    // -------------------------------------------------------------------
    // History, read marks and deletion
    // -------------------------------------------------------------------

    /**
     * handle_fetch_request: the conversation of two named users, or the
     * requester's unread messages, each pushed with the requester's total
     * unread count and marked delivered after a push that works.
     */
    method HandleFetch(m: ChatMessage, s: SocketId)
      requires Valid()
      modifies this`outbox, db
      ensures State() == Chat.HandleFetch(Setup(), old(State()), m, s)
      ensures Valid()
    {
      var msgs := FetchResults(db.Snapshot(), m);
      var total := Some(T.UnreadCount(db.Snapshot(), m.username) as int);
      PushFetched(s, msgs, total);
    }

    /** The loop of handle_fetch_request: push each message in turn, and mark its row after each push that works. */
    method PushFetched(s: SocketId, msgs: seq<ChatMessage>, total: Option<int>)
      requires db.Valid()
      modifies this`outbox, db
      ensures db.Valid()
      ensures var sent := Sends(protocol, down, PushAll(s, msgs, total));
        outbox == old(outbox) + sent && db.Snapshot() == T.MarkAllDelivered(old(db.Snapshot()), DeliveredIds(sent))
    {
      var i := 0;
      ghost var tries := [];
      while i < |msgs|
        invariant 0 <= i <= |msgs|
        invariant tries == PushAll(s, msgs[..i], total)
        invariant db.Valid()
        invariant outbox == old(outbox) + Sends(protocol, down, tries)
        invariant db.Snapshot() == T.MarkAllDelivered(old(db.Snapshot()), DeliveredIds(Sends(protocol, down, tries)))
      {
        PushAllStep(s, msgs, i, total);
        PushAndMark(s, Pushed(msgs[i], total), old(outbox), old(db.Snapshot()), tries);
        tries := tries + [Delivery(s, Pushed(msgs[i], total))];
        i := i + 1;
      }
      assert msgs[..i] == msgs;
    }

    /** Push u its unread count, if u is online. */
    method NotifyUnread(u: Text)
      modifies this`outbox
      ensures State() == Chat.NotifyUnread(Setup(), old(State()), u)
    {
      if u in usernames {
        var n := T.UnreadCount(db.Snapshot(), u);
        var ok := Push(usernames[u], Pushed(UnreadNotice(n, stamp), None));
      }
    }

    /** handle_mark_read: everything from the first recipient, or the listed ids; then the new count. */
    method HandleMarkRead(m: ChatMessage)
      requires Valid()
      modifies this`outbox, db
      ensures State() == Chat.HandleMarkRead(Setup(), old(State()), m)
      ensures Valid()
    {
      if NonEmpty(m.recipients) {
        db.MarkReadFromUser(m.username, m.recipients.value[0]);
        NotifyUnread(m.username);
      } else if NonEmpty(m.messageIds) {
        db.MarkRead(m.messageIds.value, m.username);
        NotifyUnread(m.username);
      }
    }

    /**
     * handle_delete_messages: delete the rows, collect the users to
     * notify and each one's count of unread rows deleted, then send each
     * online one a notice.
     */
    method HandleDeleteMessages(m: ChatMessage)
      requires Valid()
      modifies this`outbox, db
      ensures State() == Chat.HandleDelete(Setup(), old(State()), m)
      ensures Valid()
    {
      if !(NonEmpty(m.messageIds) && NonEmpty(m.recipients)) {
        return;
      }
      var ids := m.messageIds.value;
      var count, info := db.DeleteMessages(ids, m.username, m.recipients.value[0]);
      var notify, decrements := Tally(m.username, info);
      SendNotices(notify, m.username, ids, info, decrements);
      assert State() == Chat.HandleDelete(Setup(), old(State()), m);
    }

    /** The second loop of handle_delete_messages: a notice to each user to notify who is online. */
    method SendNotices(notify: seq<Text>, requester: Text, ids: seq<int>, info: seq<(Text, bool)>, decrements: map<Text, nat>)
      requires forall u :: GetOrZero(decrements, u) == UnreadDeleted(info, u)
      modifies this`outbox
      ensures outbox == old(outbox) + Sends(protocol, down, NoticeTries(notify, usernames, requester, ids, info, stamp))
    {
      var j := 0;
      ghost var tries := [];
      while j < |notify|
        invariant 0 <= j <= |notify|
        invariant tries == NoticeTries(notify[..j], usernames, requester, ids, info, stamp)
        invariant outbox == old(outbox) + Sends(protocol, down, tries)
      {
        NoticeTriesStep(notify, j, usernames, requester, ids, info, stamp);
        var u := notify[j];
        if u in usernames {
          var notice := Pushed(DeleteNotice(requester, ids, GetOrZero(decrements, u), stamp), None);
          Send1(usernames[u], notice, old(outbox), tries);
          tries := tries + [Delivery(usernames[u], notice)];
        }
        j := j + 1;
      }
      assert notify[..j] == notify;
    }

    /** The loop of handle_delete_messages over the deleted rows: who to notify, and each one's unread decrement. */
    static method Tally(requester: Text, info: seq<(Text, bool)>) returns (notify: seq<Text>, decrements: map<Text, nat>)
      ensures notify == Notified(requester, info)
      ensures forall u :: GetOrZero(decrements, u) == UnreadDeleted(info, u)
    {
      notify, decrements := [requester], map[];
      var i := 0;
      while i < |info|
        invariant 0 <= i <= |info|
        invariant notify == Notified(requester, info[..i])
        invariant forall u :: GetOrZero(decrements, u) == UnreadDeleted(info[..i], u)
      {
        NotifiedStep(requester, info, i);
        var (recipient, wasUnread) := info[i];
        notify := AddOnce(notify, recipient);
        if wasUnread {
          decrements := decrements[recipient := GetOrZero(decrements, recipient) + 1];
        }
        i := i + 1;
      }
      assert info[..i] == info;
    }

    // -------------------------------------------------------------------
    // Removal
    // -------------------------------------------------------------------

    /**
     * remove_client: forget the connection's name, buffer and place in
     * the registry; broadcast its logout when asked and it had a name;
     * close it.
     */
    method RemoveClient(s: SocketId, sendLogout: bool)
      requires Valid()
      modifies this, db
      ensures State() == Chat.RemoveClient(Setup(), old(State()), s, sendLogout)
      ensures Valid()
    {
      if s in clients {
        var name := clients[s];
        Unregister(s);
        if name != [] && sendLogout {
          var ok := SendToRecipients(LogoutMessage(name, stamp), Some(s));
        }
      }
      down := down + {s};
    }

    /** The deletions of remove_client: the connection's name, its buffer and its place in the registry. */
    method Unregister(s: SocketId)
      requires s in clients
      modifies this`clients, this`usernames, this`buffers, this`order
      ensures State() == Chat.Unregister(old(State()), s)
      ensures old(Valid()) ==> Valid()
    {
      var name := clients[s];
      clients := clients - {s};
      usernames := usernames - {name};
      buffers := buffers - {s};
      order := Without(order, s);
    }

    /** The removal a failed broadcast scheduled runs: the first pending socket goes, with a logout broadcast. */
    method Reap()
      requires Valid() && pending != []
      modifies this, db
      ensures State() == Chat.Reap(Setup(), old(State()))
      ensures Valid()
    {
      var s := pending[0];
      pending := pending[1..];
      RemoveClient(s, true);
    }

    // -------------------------------------------------------------------
    // handle_client
    // -------------------------------------------------------------------

    /** A response sent straight to the socket; a send that raises closes the connection. */
    method Reply(s: SocketId, resp: ServerResponse, after: Sessions.Flow) returns (flow: Sessions.Flow)
      modifies this`outbox
      ensures (State(), flow) == Sessions.Reply(Setup(), old(State()), s, resp, after)
    {
      var ok := Push(s, resp);
      flow := if ok then after else Sessions.Close;
    }

    /** REGISTER before login. */
    method HandleRegister(s: SocketId, m: ChatMessage) returns (flow: Sessions.Flow)
      requires Valid()
      modifies this`outbox, db
      ensures (State(), flow) == Sessions.HandleRegister(Setup(), old(State()), s, m)
      ensures Valid()
    {
      var (valid, problem) := ValidateUsername(m.username);
      if !valid {
        flow := Reply(s, ErrorResponse(problem), Sessions.Continue);
      } else if T.UserExists(db.Snapshot(), m.username) {
        flow := Reply(s, ErrorResponse(USER_EXISTS), Sessions.Continue);
      } else if !HasText(m.password) {
        flow := Reply(s, ErrorResponse(PASSWORD_REQUIRED), Sessions.Continue);
      } else {
        var created := db.CreateUser(m.username, m.password.value);
        flow := Reply(s, if created then NewResponse(REGISTRATION_SUCCESS) else ErrorResponse(REGISTRATION_FAILED),
                      Sessions.Continue);
      }
    }

    /** LOGIN before login: any refusal closes the connection. */
    method HandleLogin(s: SocketId, m: ChatMessage) returns (flow: Sessions.Flow)
      requires Valid() && s in handlers && handlers[s].None?
      modifies this, db
      ensures (State(), flow) == Sessions.HandleLogin(Setup(), old(State()), s, m)
      ensures Valid()
    {
      if !HasText(m.password) {
        flow := Reply(s, ErrorResponse(PASSWORD_REQUIRED), Sessions.Close);
      } else if !T.VerifyUser(db.Snapshot(), db.hash, m.username, m.password.value) {
        flow := Reply(s, ErrorResponse(INVALID_CREDENTIALS), Sessions.Close);
      } else if m.username in usernames {
        flow := Reply(s, ErrorResponse(USER_ALREADY_LOGGED_IN), Sessions.Close);
      } else {
        var u := m.username;
        clients, usernames, order := clients[s := u], usernames[u := s], order + [s];
        handlers := handlers[s := Some(u)];
        assert State() == Sessions.SignIn(old(State()), s, u);
        flow := Welcome(s, u);
      }
    }

    /** After a login: the join broadcast, the answer with the user list, and the unread reminder. */
    method Welcome(s: SocketId, u: Text) returns (flow: Sessions.Flow)
      requires Valid()
      modifies this`outbox, this`pending, db
      ensures (State(), flow) == Sessions.Welcome(Setup(), old(State()), s, u)
      ensures Valid()
    {
      var _ := SendToRecipients(Sessions.JoinMessage(u, stamp), None);
      ghost var w1 := State();
      var answer := Sessions.LoginAnswer(Setup(), State());
      var ok := Push(s, answer);
      if !ok {
        flow := Sessions.Close;
      } else {
        var n := T.UnreadCount(db.Snapshot(), u);
        if n > 0 {
          var _ := Push(s, Pushed(Sessions.UnreadReminder(n, stamp), None));
        }
        flow := Sessions.Continue;
      }
      assert (State(), flow) == Sessions.Greet(Setup(), w1, s, u);
    }

    /** DELETE_ACCOUNT after login. */
    method HandleDeleteAccount(u: Text) returns (flow: Sessions.Flow)
      requires Valid()
      modifies this`outbox, this`pending, db
      ensures (State(), flow) == Sessions.HandleDeleteAccount(Setup(), old(State()), u)
      ensures Valid()
    {
      var deleted := db.DeleteUser(u);
      if !deleted {
        return Sessions.Continue;
      }
      var online := ActiveNames(clients, order);
      var _ := SendToRecipients(Sessions.AccountDeletedNotice(u, online, stamp), None);
      var _ := SendToRecipients(Sessions.UserList(T.AllUsers(db.Snapshot()), Sessions.Others(online, u), stamp), None);
      flow := Sessions.StopBatch;
    }

    /** A frame from a connection logged in as u, dispatched on its kind. */
    method Authenticated(s: SocketId, u: Text, m: ChatMessage) returns (flow: Sessions.Flow)
      requires Valid()
      modifies this`outbox, this`pending, db
      ensures (State(), flow) == Sessions.Authenticated(Setup(), old(State()), s, u, m)
      ensures Valid()
    {
      if m.messageType in {Logout, Fetch, MarkRead, Delete} {
        flow := HandleRequest(s, u, m);
      } else {
        flow := HandlePost(s, u, m);
      }
    }

    /** LOGOUT, FETCH, MARK_READ and DELETE after login. */
    method HandleRequest(s: SocketId, u: Text, m: ChatMessage) returns (flow: Sessions.Flow)
      requires Valid() && m.messageType in {Logout, Fetch, MarkRead, Delete}
      modifies this`outbox, db
      ensures (State(), flow) == Sessions.Authenticated(Setup(), old(State()), s, u, m)
      ensures Valid()
    {
      var kind := m.messageType;
      if kind == Logout {
        flow := Sessions.StopBatch;
      } else if kind == Fetch {
        HandleFetch(m, s);
        flow := Sessions.Continue;
      } else if kind == MarkRead {
        HandleMarkRead(m);
        flow := Sessions.Continue;
      } else {
        HandleDeleteMessages(m);
        flow := Sessions.Continue;
      }
    }

    /** DM, DELETE_ACCOUNT and every other kind, which is sent on to its recipients, after login. */
    method HandlePost(s: SocketId, u: Text, m: ChatMessage) returns (flow: Sessions.Flow)
      requires Valid() && m.messageType !in {Logout, Fetch, MarkRead, Delete}
      modifies this`outbox, this`pending, db
      ensures (State(), flow) == Sessions.Authenticated(Setup(), old(State()), s, u, m)
      ensures Valid()
    {
      var kind := m.messageType;
      if kind == Dm {
        if !NonEmpty(m.recipients) {
          flow := Sessions.Continue;
        } else {
          var ok := HandleDm(m, Some(s));
          flow := if ok then Sessions.Continue else Sessions.Close;
        }
      } else if kind == DeleteAccount {
        flow := HandleDeleteAccount(u);
      } else {
        var _ := SendToRecipients(m, None);
        flow := Sessions.Continue;
      }
    }

    /** One frame of handle_client: decode it, then act on it as the connection's login state says. */
    method HandleFrame(s: SocketId, frame: Text) returns (flow: Sessions.Flow)
      requires Valid() && s in handlers
      modifies this, db
      ensures (State(), flow) == Sessions.HandleFrame(Setup(), old(State()), s, frame)
      ensures Valid()
    {
      var d := Protocols.Decode(protocol, frame, load);
      if d.Err? {
        return Sessions.Close;
      }
      var m := d.value;
      match handlers[s]
      case None =>
        if m.messageType == Register {
          flow := HandleRegister(s, m);
        } else if m.messageType == Login {
          flow := HandleLogin(s, m);
        } else {
          flow := Reply(s, ErrorResponse(LOGIN_REQUIRED), Sessions.Close);
        }
      case Some(u) =>
        flow := Authenticated(s, u, m);
    }

    // -------------------------------------------------------------------
    // The connection's life
    // -------------------------------------------------------------------

    /** accept: a new connection gets an empty buffer and a handler that has not logged in. */
    method Accept(s: SocketId)
      requires Valid() && Sessions.Fresh(State(), s)
      modifies this`buffers, this`handlers
      ensures State() == Sessions.Accept(old(State()), s)
      ensures Valid()
    {
      buffers := buffers[s := []];
      handlers := handlers[s := None];
    }

    /** The finally block of handle_client: remove the connection, with a logout broadcast if it had logged in. */
    method Finish(s: SocketId)
      requires Valid() && s in handlers
      modifies this, db
      ensures State() == Sessions.Finish(Setup(), old(State()), s)
      ensures Valid()
    {
      var session := handlers[s];
      RemoveClient(s, session.Some? && session.value != []);
      handlers := handlers - {s};
    }

    /** The inner loop of handle_client: act on every complete frame in the buffer until one stops or closes. */
    method Drain(s: SocketId) returns (out: Sessions.Outcome)
      requires Valid() && s in handlers && s in buffers
      modifies this, db
      ensures (State(), out) == Sessions.Drain(Setup(), old(State()), s)
      ensures Valid()
    {
      ghost var goal := Sessions.Drain(Setup(), State(), s);
      while true
        invariant Valid() && s in handlers && s in buffers
        invariant Sessions.Drain(Setup(), State(), s) == goal
        decreases |buffers[s]|
      {
        ghost var w := State();
        var (frame, rest) := Protocols.Extract(protocol, buffers[s]);
        Protocols.ExtractShrinks(protocol, buffers[s]);
        buffers := buffers[s := rest];
        if frame.None? {
          return Sessions.Waiting;
        }
        var flow := HandleFrame(s, frame.value);
        if flow == Sessions.StopBatch {
          return Sessions.Stopped;
        } else if flow == Sessions.Close {
          Finish(s);
          return Sessions.Closed;
        }
      }
    }

    /**
     * One pass of handle_client's outer loop with the bytes recv returned:
     * no bytes, a closed socket or a missing buffer end the handler;
     * otherwise the bytes are appended and drained. True when the handler
     * ended.
     */
    method Receive(s: SocketId, data: Text) returns (ended: bool)
      requires Valid() && s in handlers
      modifies this, db
      ensures (State(), ended) == Sessions.Receive(Setup(), old(State()), s, data)
      ensures Valid()
    {
      if data == [] || s in down || s !in buffers {
        Finish(s);
        return true;
      }
      buffers := buffers[s := buffers[s] + data];
      var out := Drain(s);
      ended := out == Sessions.Closed;
    }
  }
}
