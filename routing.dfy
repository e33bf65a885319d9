/**
 * The chat server's pure side: username validation, who a message is
 * routed to, which sends go through, and the bookkeeping behind a
 * deletion notice.
 */
module Routing {
  import opened Octets
  import opened Wrappers
  import opened Schemas
  import opened Sockets
  import Protocols
  import CustomWire
  import T = Tables

  // ---------------------------------------------------------------------
  // Username validation
  // ---------------------------------------------------------------------

  const UNDERSCORE: byte := 95

  predicate IsAlnum(b: byte)
  {
    (48 <= b <= 57) || (65 <= b <= 90) || (97 <= b <= 122)
  }

  /** The text with every underscore removed. */
  function DropUnderscores(s: Text): (r: Text)
    ensures forall i | 0 <= i < |r| :: r[i] != UNDERSCORE && r[i] in s
    ensures forall i | 0 <= i < |s| && s[i] != UNDERSCORE :: s[i] in r
  {
    if s == [] then []
    else if s[0] == UNDERSCORE then DropUnderscores(s[1..])
    else [s[0]] + DropUnderscores(s[1..])
  }

  /** `str.isalnum`: non-empty, and every character a letter or a digit. */
  predicate AllAlnum(s: Text)
  {
    |s| > 0 && forall i | 0 <= i < |s| :: IsAlnum(s[i])
  }

  /** validate_username: the checks run in order, and the first that fails names the problem. */
  function ValidateUsername(u: Text): (r: (bool, Text))
    ensures r.0 <==>
      && |u| >= 2
      && (forall i | 0 <= i < |u| :: IsAlnum(u[i]) || u[i] == UNDERSCORE)
      && (exists i | 0 <= i < |u| :: IsAlnum(u[i]))
    ensures r.0 ==> r.1 == []
    ensures u == [] ==> r == (false, USERNAME_REQUIRED)
    ensures |u| == 1 ==> r == (false, USERNAME_TOO_SHORT)
    ensures |u| >= 2 && !r.0 ==> r.1 == INVALID_USERNAME
  {
    if u == [] then (false, USERNAME_REQUIRED)
    else if |u| < 2 then (false, USERNAME_TOO_SHORT)
    else if !AllAlnum(DropUnderscores(u)) then
      assert (exists i | 0 <= i < |u| :: IsAlnum(u[i])) ==> |DropUnderscores(u)| > 0 by {
        if exists i | 0 <= i < |u| :: IsAlnum(u[i]) {
          var i :| 0 <= i < |u| && IsAlnum(u[i]);
          assert u[i] in DropUnderscores(u);
        }
      }
      (false, INVALID_USERNAME)
    else
      ghost var d := DropUnderscores(u);
      assert d[0] in u;
      assert forall i | 0 <= i < |u| && u[i] != UNDERSCORE :: IsAlnum(u[i]) by {
        forall i | 0 <= i < |u| && u[i] != UNDERSCORE ensures IsAlnum(u[i]) {
          assert u[i] in d;
        }
      }
      (true, [])
  }

  /** `str.isspace` on ASCII: non-empty, and every character blank. */
  predicate AllSpace(s: Text)
  {
    |s| > 0 && forall i | 0 <= i < |s| :: (9 <= s[i] <= 13) || (28 <= s[i] <= 32)
  }

  // ---------------------------------------------------------------------
  // Routing targets
  // ---------------------------------------------------------------------

  /** The sockets a message addressed to `recipients` goes to: each online recipient in turn, unless excluded. */
  function RecipientTargets(recipients: seq<Text>, usernames: map<Text, SocketId>, exclude: Option<SocketId>): (ts: seq<SocketId>)
    ensures forall s :: s in ts <==>
      (exists i | 0 <= i < |recipients| :: recipients[i] in usernames && usernames[recipients[i]] == s) && Some(s) != exclude
  {
    if recipients == [] then []
    else
      var front := RecipientTargets(recipients[..|recipients| - 1], usernames, exclude);
      var r := recipients[|recipients| - 1];
      assert forall i | 0 <= i < |recipients| - 1 :: recipients[..|recipients| - 1][i] == recipients[i];
      if r in usernames && Some(usernames[r]) != exclude then front + [usernames[r]] else front
  }

  /** The sockets a broadcast goes to: every connection in order, except the excluded one. */
  function BroadcastTargets(order: seq<SocketId>, exclude: Option<SocketId>): (ts: seq<SocketId>)
    ensures forall s :: s in ts <==> s in order && Some(s) != exclude
    ensures |ts| <= |order|
  {
    if order == [] then []
    else
      var front := BroadcastTargets(order[..|order| - 1], exclude);
      var s := order[|order| - 1];
      assert order == order[..|order| - 1] + [s];
      if Some(s) != exclude then front + [s] else front
  }

  /**
   * send_to_recipients' choice: a message with recipients goes to those
   * online, anything else to every connection; either way never to the
   * excluded socket.
   */
  function Route(m: ChatMessage, usernames: map<Text, SocketId>, order: seq<SocketId>, exclude: Option<SocketId>): (ts: seq<SocketId>)
    ensures NonEmpty(m.recipients) ==> forall s :: s in ts <==>
      (exists u | u in m.recipients.value :: u in usernames && usernames[u] == s) && Some(s) != exclude
    ensures !NonEmpty(m.recipients) ==> forall s :: s in ts <==> s in order && Some(s) != exclude
  {
    if NonEmpty(m.recipients) then
      var rs := m.recipients.value;
      var ts := RecipientTargets(rs, usernames, exclude);
      assert forall s :: s in ts <==> (exists u | u in rs :: u in usernames && usernames[u] == s) && Some(s) != exclude by {
        forall s ensures s in ts <==> (exists u | u in rs :: u in usernames && usernames[u] == s) && Some(s) != exclude {
          if exists u | u in rs :: u in usernames && usernames[u] == s {
            var u :| u in rs && u in usernames && usernames[u] == s;
            var i :| 0 <= i < |rs| && rs[i] == u;
          }
        }
      }
      ts
    else BroadcastTargets(order, exclude)
  }

  // ---------------------------------------------------------------------
  // Sends
  // ---------------------------------------------------------------------

  /** One response pushed to one connection. */
  datatype Delivery = Delivery(to: SocketId, response: ServerResponse)

  /**
   * A response can be put on the wire: JSON always serialises, the binary
   * codec must encode it. Its encoder checks no payload size, so a frame
   * larger than the peer's extractor accepts is still sent.
   */
  predicate Sendable(p: Protocols.Protocol, resp: ServerResponse)
  {
    p == Protocols.Json || CustomWire.EncodeResponse(resp).Ok?
  }

  /**
   * JSON serialises every response; the binary codec refuses one only when
   * a string, the unread count or the whole payload overflows its 4-byte
   * length field, or the embedded message does not encode.
   */
  lemma SendableCases(p: Protocols.Protocol, resp: ServerResponse)
    ensures p == Protocols.Json ==> Sendable(p, resp)
    ensures p == Protocols.Custom ==> (Sendable(p, resp) <==>
      && CustomWire.Packable(resp.message) && CustomWire.FitsU32(CustomWire.OrZero(resp.unreadCount))
      && CustomWire.EncodeEmbedded(resp.data).Ok?
      && 1 + 4 + |resp.message| + 4 + |CustomWire.EncodeEmbedded(resp.data).value| < U32_LIMIT)
  {
  }

  /** A send succeeds when the socket is up and the response serialises. */
  predicate Works(p: Protocols.Protocol, down: set<SocketId>, s: SocketId, resp: ServerResponse)
  {
    s !in down && Sendable(p, resp)
  }

  /** The deliveries a sequence of attempted sends produces, in order. */
  function Sends(p: Protocols.Protocol, down: set<SocketId>, tries: seq<Delivery>): (ds: seq<Delivery>)
    ensures forall d :: d in ds <==> d in tries && Works(p, down, d.to, d.response)
    ensures |ds| <= |tries|
  {
    if tries == [] then []
    else
      var last := tries[|tries| - 1];
      assert tries == tries[..|tries| - 1] + [last];
      Sends(p, down, tries[..|tries| - 1]) + (if Works(p, down, last.to, last.response) then [last] else [])
  }

  /** The sockets whose send fails, in order. */
  function Failures(p: Protocols.Protocol, down: set<SocketId>, tries: seq<Delivery>): (fs: seq<SocketId>)
    ensures forall s :: s in fs <==> exists d | d in tries :: d.to == s && !Works(p, down, s, d.response)
    ensures |fs| + |Sends(p, down, tries)| == |tries|
  {
    if tries == [] then []
    else
      var last := tries[|tries| - 1];
      assert tries == tries[..|tries| - 1] + [last];
      Failures(p, down, tries[..|tries| - 1]) + (if Works(p, down, last.to, last.response) then [] else [last.to])
  }

  /** The same response to each socket in turn. */
  function Fanout(ts: seq<SocketId>, resp: ServerResponse): (tries: seq<Delivery>)
    ensures |tries| == |ts|
    ensures forall i | 0 <= i < |ts| :: tries[i] == Delivery(ts[i], resp)
  {
    seq(|ts|, i requires 0 <= i < |ts| => Delivery(ts[i], resp))
  }

  /** One pushed message per entry, all to the same socket, as the fetch handler sends them. */
  function PushAll(s: SocketId, msgs: seq<ChatMessage>, unread: Option<int>): (tries: seq<Delivery>)
    ensures |tries| == |msgs|
    ensures forall i | 0 <= i < |msgs| :: tries[i] == Delivery(s, Pushed(msgs[i], unread))
  {
    seq(|msgs|, i requires 0 <= i < |msgs| => Delivery(s, Pushed(msgs[i], unread)))
  }

  /** The message ids the deliveries carried, in order: the rows to mark delivered. */
  function DeliveredIds(ds: seq<Delivery>): (ids: seq<int>)
    ensures forall x :: x in ids <==> exists d | d in ds :: d.response.data.Some? && d.response.data.value.messageId == Some(x)
  {
    if ds == [] then []
    else
      var d := ds[|ds| - 1];
      assert ds == ds[..|ds| - 1] + [d];
      DeliveredIds(ds[..|ds| - 1]) + (if d.response.data.Some? && d.response.data.value.messageId.Some? then [d.response.data.value.messageId.value] else [])
  }

  /** Pushes to one socket: each carries one of the messages, and every message whose push works is among them. */
  lemma PushAllReach(p: Protocols.Protocol, down: set<SocketId>, s: SocketId, msgs: seq<ChatMessage>, unread: Option<int>)
    ensures var sent := Sends(p, down, PushAll(s, msgs, unread));
      && (forall d | d in sent :: d.to == s && d.response.unreadCount == unread && d.response.data.Some? && d.response.data.value in msgs)
      && (forall i | 0 <= i < |msgs| && Works(p, down, s, Pushed(msgs[i], unread)) :: Delivery(s, Pushed(msgs[i], unread)) in sent)
  {
    var tries := PushAll(s, msgs, unread);
    forall d | d in Sends(p, down, tries)
      ensures d.to == s && d.response.unreadCount == unread && d.response.data.Some? && d.response.data.value in msgs
    {
      var i :| 0 <= i < |tries| && tries[i] == d;
    }
    forall i | 0 <= i < |msgs| && Works(p, down, s, Pushed(msgs[i], unread)) ensures Delivery(s, Pushed(msgs[i], unread)) in Sends(p, down, tries) {
      assert tries[i] in tries;
    }
  }

  /** An id carried by a push to one socket is that of a message whose push works. */
  lemma PushedIdFrom(p: Protocols.Protocol, down: set<SocketId>, s: SocketId, msgs: seq<ChatMessage>, unread: Option<int>, x: int)
    requires x in DeliveredIds(Sends(p, down, PushAll(s, msgs, unread)))
    ensures exists i | 0 <= i < |msgs| :: msgs[i].messageId == Some(x) && Works(p, down, s, Pushed(msgs[i], unread))
  {
    var tries := PushAll(s, msgs, unread);
    var sent := Sends(p, down, tries);
    var d :| d in sent && d.response.data.Some? && d.response.data.value.messageId == Some(x);
    assert d in tries && Works(p, down, d.to, d.response);
    var i :| 0 <= i < |tries| && tries[i] == d;
    assert d == Delivery(s, Pushed(msgs[i], unread));
    assert msgs[i].messageId == Some(x) && Works(p, down, s, Pushed(msgs[i], unread));
  }

  /** The id of a message whose push works is carried. */
  lemma PushedIdTo(p: Protocols.Protocol, down: set<SocketId>, s: SocketId, msgs: seq<ChatMessage>, unread: Option<int>, i: nat)
    requires i < |msgs| && msgs[i].messageId.Some? && Works(p, down, s, Pushed(msgs[i], unread))
    ensures msgs[i].messageId.value in DeliveredIds(Sends(p, down, PushAll(s, msgs, unread)))
  {
    var tries := PushAll(s, msgs, unread);
    assert tries[i] in tries;
    assert tries[i] in Sends(p, down, tries);
  }

  /** The ids pushes to one socket carry are those of the messages whose push works. */
  lemma PushAllIds(p: Protocols.Protocol, down: set<SocketId>, s: SocketId, msgs: seq<ChatMessage>, unread: Option<int>)
    ensures forall x :: x in DeliveredIds(Sends(p, down, PushAll(s, msgs, unread))) <==>
      exists i | 0 <= i < |msgs| :: msgs[i].messageId == Some(x) && Works(p, down, s, Pushed(msgs[i], unread))
  {
    forall x | x in DeliveredIds(Sends(p, down, PushAll(s, msgs, unread)))
      ensures exists i | 0 <= i < |msgs| :: msgs[i].messageId == Some(x) && Works(p, down, s, Pushed(msgs[i], unread))
    {
      PushedIdFrom(p, down, s, msgs, unread, x);
    }
    forall i | 0 <= i < |msgs| && msgs[i].messageId.Some? && Works(p, down, s, Pushed(msgs[i], unread))
      ensures msgs[i].messageId.value in DeliveredIds(Sends(p, down, PushAll(s, msgs, unread)))
    {
      PushedIdTo(p, down, s, msgs, unread, i);
    }
  }

  /** Some recipient's push working carries the id through. */
  lemma RecipientDeliveredTo(p: Protocols.Protocol, down: set<SocketId>, rs: seq<Text>, usernames: map<Text, SocketId>,
                             resp: ServerResponse, id: int, u: Text)
    requires resp.data.Some? && resp.data.value.messageId == Some(id)
    requires u in rs && u in usernames && Works(p, down, usernames[u], resp)
    ensures id in DeliveredIds(Sends(p, down, Fanout(RecipientTargets(rs, usernames, None), resp)))
  {
    var ts := RecipientTargets(rs, usernames, None);
    var tries := Fanout(ts, resp);
    var i :| 0 <= i < |rs| && rs[i] == u;
    assert rs[i] in usernames && usernames[rs[i]] == usernames[u];
    assert usernames[u] in ts;
    var k :| 0 <= k < |ts| && ts[k] == usernames[u];
    assert tries[k] == Delivery(usernames[u], resp);
    assert tries[k] in Sends(p, down, tries);
  }

  /** A carried id means some recipient's push worked. */
  lemma RecipientDeliveredFrom(p: Protocols.Protocol, down: set<SocketId>, rs: seq<Text>, usernames: map<Text, SocketId>,
                               resp: ServerResponse, id: int)
    requires resp.data.Some? && resp.data.value.messageId == Some(id)
    requires id in DeliveredIds(Sends(p, down, Fanout(RecipientTargets(rs, usernames, None), resp)))
    ensures exists u | u in rs :: u in usernames && Works(p, down, usernames[u], resp)
  {
    var ts := RecipientTargets(rs, usernames, None);
    var tries := Fanout(ts, resp);
    var sent := Sends(p, down, tries);
    var d :| d in sent && d.response.data.Some? && d.response.data.value.messageId == Some(id);
    assert d in tries && Works(p, down, d.to, d.response);
    var k :| 0 <= k < |tries| && tries[k] == d;
    assert d == Delivery(ts[k], resp);
    assert ts[k] in ts;
    var i :| 0 <= i < |rs| && rs[i] in usernames && usernames[rs[i]] == ts[k];
    assert rs[i] in rs && Works(p, down, usernames[rs[i]], resp);
  }

  /** A message pushed to its online recipients carries its id through exactly when one push works. */
  lemma RecipientsDelivered(p: Protocols.Protocol, down: set<SocketId>, rs: seq<Text>, usernames: map<Text, SocketId>,
                            resp: ServerResponse, id: int)
    requires resp.data.Some? && resp.data.value.messageId == Some(id)
    ensures id in DeliveredIds(Sends(p, down, Fanout(RecipientTargets(rs, usernames, None), resp))) <==>
      exists u | u in rs :: u in usernames && Works(p, down, usernames[u], resp)
  {
    if exists u | u in rs :: u in usernames && Works(p, down, usernames[u], resp) {
      var u :| u in rs && u in usernames && Works(p, down, usernames[u], resp);
      RecipientDeliveredTo(p, down, rs, usernames, resp, id, u);
    }
    if id in DeliveredIds(Sends(p, down, Fanout(RecipientTargets(rs, usernames, None), resp))) {
      RecipientDeliveredFrom(p, down, rs, usernames, resp, id);
    }
  }

  /** A pushed message, as send_to_client wraps it. */
  function Pushed(m: ChatMessage, unread: Option<int>): (r: ServerResponse)
    ensures r.status == Success && r.message == NEW_MESSAGE && r.data == Some(m) && r.unreadCount == unread
  {
    Response(Success, NEW_MESSAGE, Some(m), unread)
  }

  /**
   * A push of a message at the content limit goes out over the binary
   * protocol, yet its frame is over the size the receiving extractor
   * accepts, so the receiver drops its header.
   */
  lemma PushAtLimitDropped(down: set<SocketId>, s: SocketId, rest: Text)
    requires s !in down
    ensures var r := Pushed(CustomWire.ContentAtLimit(), None);
      && Works(Protocols.Custom, down, s, r)
      && !CustomWire.EncodeResponseFrame(r).Ok?
      && CustomWire.ExtractFrame(CustomWire.EncodeResponse(r).value + rest).0.None?
  {
    var m := CustomWire.ContentAtLimit();
    var r := Pushed(m, None);
    CustomWire.ContentAtLimitIsDropped();
    var e := CustomWire.EncodeEmbedded(r.data).value;
    assert |e| == 1 + CustomWire.HEADER_LEN + |CustomWire.Payload(m)|;
    assert |NEW_MESSAGE| == 11;
    assert CustomWire.EncodeResponse(r).Ok?;
    CustomWire.ResponseFrame(r);
    CustomWire.OversizeResponseDropped(r, rest);
  }

  /**
   * A message routed to its recipients reaches exactly the online,
   * non-excluded recipients whose socket works; a broadcast reaches
   * exactly the connections other than the excluded one whose socket works.
   */
  lemma RoutingReach(p: Protocols.Protocol, down: set<SocketId>, recipients: seq<Text>, usernames: map<Text, SocketId>,
                     order: seq<SocketId>, exclude: Option<SocketId>, m: ChatMessage)
    ensures forall d | d in Sends(p, down, Fanout(RecipientTargets(recipients, usernames, exclude), Pushed(m, None))) ::
      && d.response == Pushed(m, None) && Some(d.to) != exclude && d.to !in down
      && exists i | 0 <= i < |recipients| :: recipients[i] in usernames && usernames[recipients[i]] == d.to
    ensures forall i | 0 <= i < |recipients| && recipients[i] in usernames ::
      var s := usernames[recipients[i]];
      Some(s) != exclude && Works(p, down, s, Pushed(m, None)) ==>
        Delivery(s, Pushed(m, None)) in Sends(p, down, Fanout(RecipientTargets(recipients, usernames, exclude), Pushed(m, None)))
    ensures forall s :: Delivery(s, Pushed(m, None)) in Sends(p, down, Fanout(BroadcastTargets(order, exclude), Pushed(m, None))) <==>
      s in order && Some(s) != exclude && Works(p, down, s, Pushed(m, None))
  {
    var rt := RecipientTargets(recipients, usernames, exclude);
    var bt := BroadcastTargets(order, exclude);
    forall d | d in Fanout(rt, Pushed(m, None)) ensures d.to in rt && d.response == Pushed(m, None) {
      var i :| 0 <= i < |rt| && Fanout(rt, Pushed(m, None))[i] == d;
    }
    forall i | 0 <= i < |recipients| && recipients[i] in usernames
      ensures var s := usernames[recipients[i]];
        Some(s) != exclude ==> Delivery(s, Pushed(m, None)) in Fanout(rt, Pushed(m, None))
    {
      var s := usernames[recipients[i]];
      if Some(s) != exclude {
        var j :| 0 <= j < |rt| && rt[j] == s;
        assert Fanout(rt, Pushed(m, None))[j] == Delivery(s, Pushed(m, None));
      }
    }
    forall s ensures Delivery(s, Pushed(m, None)) in Fanout(bt, Pushed(m, None)) <==> s in bt {
      if s in bt {
        var j :| 0 <= j < |bt| && bt[j] == s;
        assert Fanout(bt, Pushed(m, None))[j] == Delivery(s, Pushed(m, None));
      }
    }
  }

  /** A DM's sends: the message to each online recipient in turn, then the echo to its sender, if online. */
  function EchoedSends(p: Protocols.Protocol, down: set<SocketId>, recipients: seq<Text>, usernames: map<Text, SocketId>,
                       sender: Text, m: ChatMessage): seq<Delivery>
  {
    Sends(p, down, Fanout(RecipientTargets(recipients, usernames, None), Pushed(m, None)))
      + (if sender in usernames && Works(p, down, usernames[sender], Pushed(m, None))
         then [Delivery(usernames[sender], Pushed(m, None))] else [])
  }

  /**
   * Those sends, appended to an outbox, reach exactly the working sockets
   * of the online recipients and of the sender, with that message only.
   */
  lemma EchoedReach(p: Protocols.Protocol, down: set<SocketId>, recipients: seq<Text>, usernames: map<Text, SocketId>,
                    sender: Text, m: ChatMessage, before: seq<Delivery>, after: seq<Delivery>)
    requires after == before + EchoedSends(p, down, recipients, usernames, sender, m)
    ensures |after| >= |before| && after[..|before|] == before
    ensures forall d | d in after[|before|..] :: d.response == Pushed(m, None)
    ensures forall x: SocketId :: Delivery(x, Pushed(m, None)) in after[|before|..] <==>
      && Works(p, down, x, Pushed(m, None))
      && ((exists u | u in recipients :: u in usernames && usernames[u] == x)
          || (sender in usernames && usernames[sender] == x))
  {
    RoutingReach(p, down, recipients, usernames, [], None, m);
    var sent := Sends(p, down, Fanout(RecipientTargets(recipients, usernames, None), Pushed(m, None)));
    assert after[|before|..] == EchoedSends(p, down, recipients, usernames, sender, m);
    forall x: SocketId | Works(p, down, x, Pushed(m, None)) && exists u | u in recipients :: u in usernames && usernames[u] == x
      ensures Delivery(x, Pushed(m, None)) in sent
    {
      var u :| u in recipients && u in usernames && usernames[u] == x;
      var i :| 0 <= i < |recipients| && recipients[i] == u;
    }
    forall d | d in sent ensures exists u | u in recipients :: u in usernames && usernames[u] == d.to {
      var i :| 0 <= i < |recipients| && recipients[i] in usernames && usernames[recipients[i]] == d.to;
      assert recipients[i] in recipients;
    }
  }

  // ---------------------------------------------------------------------
  // Deletion notices
  // ---------------------------------------------------------------------

  /** The notices of a deletion: one per notified user who is online, each with that user's own decrement. */
  function NoticeTries(users: seq<Text>, usernames: map<Text, SocketId>, requester: Text, ids: seq<int>,
                       info: seq<(Text, bool)>, stamp: Stamp): (tries: seq<Delivery>)
    ensures forall d :: d in tries <==> exists u | u in users ::
      u in usernames && d == Delivery(usernames[u], Pushed(DeleteNotice(requester, ids, UnreadDeleted(info, u), stamp), None))
  {
    if users == [] then []
    else
      var u := users[|users| - 1];
      assert users == users[..|users| - 1] + [u];
      NoticeTries(users[..|users| - 1], usernames, requester, ids, info, stamp)
        + (if u in usernames then [Delivery(usernames[u], Pushed(DeleteNotice(requester, ids, UnreadDeleted(info, u), stamp), None))] else [])
  }

  /** Add x unless it is already there. */
  function AddOnce(xs: seq<Text>, x: Text): (r: seq<Text>)
    ensures forall y :: y in r <==> y in xs || y == x
  {
    if x in xs then xs else xs + [x]
  }

  predicate Distinct(xs: seq<Text>)
  {
    forall i, j | 0 <= i < j < |xs| :: xs[i] != xs[j]
  }

  /**
   * users_to_notify: the requester, then each recipient of a deleted row,
   * once each, in order of first appearance.
   */
  function Notified(requester: Text, info: seq<(Text, bool)>): (r: seq<Text>)
    ensures forall u :: u in r <==> u == requester || exists i | 0 <= i < |info| :: info[i].0 == u
    ensures Distinct(r) && |r| > 0 && r[0] == requester
  {
    if info == [] then [requester]
    else
      var front := info[..|info| - 1];
      assert forall i | 0 <= i < |front| :: front[i] == info[i];
      var before := Notified(requester, front);
      var r := AddOnce(before, info[|info| - 1].0);
      assert forall i | 0 <= i < |before| :: r[i] == before[i];
      r
  }

  /** unread_decrements[u]: the deleted rows addressed to u that were unread. */
  function UnreadDeleted(info: seq<(Text, bool)>, u: Text): (n: nat)
    ensures n <= |info|
  {
    if info == [] then 0
    else UnreadDeleted(info[..|info| - 1], u) + (if info[|info| - 1] == (u, true) then 1 else 0)
  }

  /** The notice a notified user receives. */
  function DeleteNotice(requester: Text, ids: seq<int>, decrement: nat, stamp: Stamp): (m: ChatMessage)
    ensures m.username == requester && m.content == [] && m.messageType == DeleteNotification
    ensures m.messageIds == Some(ids) && m.unreadCount == Some(decrement)
    ensures m.recipients.None? && m.messageId.None? && m.password.None?
  {
    NewMessage(requester, [], stamp).(messageType := DeleteNotification, messageIds := Some(ids), unreadCount := Some(decrement))
  }

  /** The rows among ids addressed to u and unread. */
  function UnreadAmong(m: map<nat, T.Record>, ids: seq<nat>, u: Text): (n: nat)
    requires T.AllIn(m, ids)
    ensures n <= |ids|
  {
    if ids == [] then 0
    else
      var k := ids[|ids| - 1];
      UnreadAmong(m, ids[..|ids| - 1], u) + (if m[k].recipient == u && !m[k].read then 1 else 0)
  }

  /** Counting over the report is counting over the rows it describes. */
  lemma {:induction false} UnreadDeletedAmong(m: map<nat, T.Record>, ids: seq<nat>, u: Text)
    requires T.AllIn(m, ids)
    ensures UnreadDeleted(T.DeletedInfo(m, ids), u) == UnreadAmong(m, ids, u)
  {
    if ids != [] {
      var front := ids[..|ids| - 1];
      UnreadDeletedAmong(m, front, u);
      var info := T.DeletedInfo(m, ids);
      assert info[..|info| - 1] == T.DeletedInfo(m, front);
    }
  }

  /** One step of Select's recursion, as a fact. */
  lemma SelectStep(m: map<nat, T.Record>, w: T.Where, n: nat)
    requires n > 0
    ensures n - 1 in m && T.Holds(w, n - 1, m[n - 1]) ==> T.Select(m, w, n) == T.Select(m, w, n - 1) + [n - 1]
    ensures !(n - 1 in m && T.Holds(w, n - 1, m[n - 1])) ==> T.Select(m, w, n) == T.Select(m, w, n - 1)
  {
  }

  /** Counting over one more row adds that row's contribution. */
  lemma UnreadAmongSnoc(m: map<nat, T.Record>, ids: seq<nat>, k: nat, u: Text)
    requires T.AllIn(m, ids) && k in m
    ensures T.AllIn(m, ids + [k])
    ensures UnreadAmong(m, ids + [k], u) == UnreadAmong(m, ids, u) + (if m[k].recipient == u && !m[k].read then 1 else 0)
  {
    assert (ids + [k])[..|ids|] == ids;
  }

  /** One step of selecting the unread rows to u among those w selects. */
  lemma SelectUnreadStep(m: map<nat, T.Record>, w: T.Where, n: nat, u: Text)
    requires n > 0
    ensures |T.Select(m, T.And(w, T.UnreadFor(u)), n)| == |T.Select(m, T.And(w, T.UnreadFor(u)), n - 1)|
      + (if n - 1 in m && T.Holds(w, n - 1, m[n - 1]) && m[n - 1].recipient == u && !m[n - 1].read then 1 else 0)
  {
    SelectStep(m, T.And(w, T.UnreadFor(u)), n);
    if n - 1 in m {
      var r := m[n - 1];
      assert T.Holds(T.And(w, T.UnreadFor(u)), n - 1, r) <==> T.Holds(w, n - 1, r) && T.Holds(T.UnreadFor(u), n - 1, r);
    }
  }

  /** Among the rows w selects, those addressed to u and unread are the rows And(w, UnreadFor(u)) selects. */
  lemma {:induction false} UnreadAmongSelect(m: map<nat, T.Record>, w: T.Where, n: nat, u: Text)
    ensures UnreadAmong(m, T.Select(m, w, n), u) == |T.Select(m, T.And(w, T.UnreadFor(u)), n)|
  {
    if n > 0 {
      var before := T.Select(m, w, n - 1);
      UnreadAmongSelect(m, w, n - 1, u);
      SelectStep(m, w, n);
      SelectUnreadStep(m, w, n, u);
      if n - 1 in m && T.Holds(w, n - 1, m[n - 1]) {
        UnreadAmongSnoc(m, before, n - 1, u);
        assert UnreadAmong(m, T.Select(m, w, n), u) == UnreadAmong(m, before + [n - 1], u);
      } else {
        assert UnreadAmong(m, T.Select(m, w, n), u) == UnreadAmong(m, before, u);
      }
    }
  }

  /**
   * The decrement reported to u is the number of rows that the deletion
   * removed, addressed to u and still unread: counted over the rows the
   * store reports, it equals the count of such rows in the table.
   */
  lemma UnreadDeletedCounts(m: map<nat, T.Record>, w: T.Where, n: nat, u: Text)
    ensures UnreadDeleted(T.DeletedInfo(m, T.Select(m, w, n)), u) == |T.Select(m, T.And(w, T.UnreadFor(u)), n)|
  {
    UnreadDeletedAmong(m, T.Select(m, w, n), u);
    UnreadAmongSelect(m, w, n, u);
  }
}
