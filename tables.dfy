/**
 * The message store's two tables, `users` and `messages`, as values. Each
 * SQL statement the store issues is a function from the tables before it
 * to the tables after it (and what the statement returns); its WHERE
 * clause, written as a `Where` value, is the precise contract.
 */
module Tables {
  import opened Octets
  import opened Wrappers
  import opened Schemas

  /** A row of `users`; `hash` is the stored password digest. */
  datatype Account = Account(name: Text, hash: Text)

  /** A row of `messages` without its id, which is the key of the map. */
  datatype Record = Record(
    sender: Text, recipient: Text, content: Text, time: Stamp,
    kind: MessageType, read: bool, delivered: bool)

  /** Both tables, and the AUTOINCREMENT counter: the id the next row gets. */
  datatype Snapshot = Snapshot(accounts: seq<Account>, messages: map<nat, Record>, nextId: nat)

  predicate UniqueNames(accounts: seq<Account>)
  {
    forall i, j | 0 <= i < j < |accounts| :: accounts[i].name != accounts[j].name
  }

  /** The keys: usernames are unique, message ids are positive and below the counter. */
  predicate Valid(t: Snapshot)
  {
    && t.nextId >= 1
    && UniqueNames(t.accounts)
    && forall id | id in t.messages :: 1 <= id < t.nextId
  }

  /** The freshly created schema. */
  function Empty(): (t: Snapshot)
    ensures Valid(t) && t.accounts == [] && t.messages == map[]
  {
    Snapshot([], map[], 1)
  }

  // ---------------------------------------------------------------------
  // WHERE clauses
  // ---------------------------------------------------------------------

  /** The row conditions the store's statements are built from. */
  datatype Where =
    | To(recipient: Text)
    | From(sender: Text)
    | Unread
    | IdIn(ids: seq<int>)
    | And(left: Where, right: Where)
    | Or(either: Where, or: Where)
    | Not(negated: Where)

  predicate Holds(w: Where, id: nat, r: Record)
  {
    match w
    case To(u) => r.recipient == u
    case From(u) => r.sender == u
    case Unread => !r.read
    case IdIn(ids) => id in ids
    case And(a, b) => Holds(a, id, r) && Holds(b, id, r)
    case Or(a, b) => Holds(a, id, r) || Holds(b, id, r)
    case Not(a) => !Holds(a, id, r)
  }

  /** recipient = u AND read_status = FALSE */
  function UnreadFor(u: Text): (w: Where)
    ensures forall id, r :: Holds(w, id, r) <==> r.recipient == u && !r.read
  {
    And(To(u), Unread)
  }

  /** sender = s AND recipient = r */
  function FromTo(s: Text, r: Text): (w: Where)
    ensures forall id, x :: Holds(w, id, x) <==> x.sender == s && x.recipient == r
  {
    And(From(s), To(r))
  }

  /** (sender = a AND recipient = b) OR (sender = b AND recipient = a) */
  function Between(a: Text, b: Text): (w: Where)
    ensures forall id, x :: Holds(w, id, x) <==>
      (x.sender == a && x.recipient == b) || (x.sender == b && x.recipient == a)
  {
    Or(FromTo(a, b), FromTo(b, a))
  }

  /** sender = u OR recipient = u */
  function Involving(u: Text): (w: Where)
    ensures forall id, x :: Holds(w, id, x) <==> x.sender == u || x.recipient == u
  {
    Or(From(u), To(u))
  }

  predicate Increasing(ids: seq<nat>)
  {
    forall i, j | 0 <= i < j < |ids| :: ids[i] < ids[j]
  }

  /** The ids below n of the rows satisfying w, in ascending id order. */
  function Select(m: map<nat, Record>, w: Where, n: nat): (ids: seq<nat>)
    ensures forall id :: id in ids <==> id < n && id in m && Holds(w, id, m[id])
    ensures Increasing(ids)
  {
    if n == 0 then []
    else
      var before := Select(m, w, n - 1);
      if n - 1 in m && Holds(w, n - 1, m[n - 1]) then
        assert forall i | 0 <= i < |before| :: before[i] in before;
        before + [n - 1]
      else before
  }

  /** The rows satisfying w split into those that also satisfy v and those that do not. */
  lemma {:induction false} SelectSplit(m: map<nat, Record>, w: Where, v: Where, n: nat)
    ensures |Select(m, w, n)| == |Select(m, And(w, v), n)| + |Select(m, And(w, Not(v)), n)|
  {
    if n > 0 {
      SelectSplit(m, w, v, n - 1);
      var k := n - 1;
      var a, b, c := Select(m, w, k), Select(m, And(w, v), k), Select(m, And(w, Not(v)), k);
      if k in m && Holds(w, k, m[k]) {
        assert Select(m, w, n) == a + [k];
        if Holds(v, k, m[k]) {
          assert !Holds(Not(v), k, m[k]);
          assert Select(m, And(w, v), n) == b + [k];
          assert Select(m, And(w, Not(v)), n) == c;
        } else {
          assert Holds(Not(v), k, m[k]);
          assert Select(m, And(w, v), n) == b;
          assert Select(m, And(w, Not(v)), n) == c + [k];
        }
      }
    }
  }

  /** A selection depends only on which rows below n it accepts. */
  lemma {:induction false} SelectSame(m1: map<nat, Record>, w1: Where, m2: map<nat, Record>, w2: Where, n: nat)
    requires forall id | id < n :: (id in m1 && Holds(w1, id, m1[id])) <==> (id in m2 && Holds(w2, id, m2[id]))
    ensures Select(m1, w1, n) == Select(m2, w2, n)
  {
    if n > 0 {
      SelectSame(m1, w1, m2, w2, n - 1);
      var k := n - 1;
      if k in m1 && Holds(w1, k, m1[k]) {
        assert Select(m1, w1, n) == Select(m1, w1, k) + [k];
        assert Select(m2, w2, n) == Select(m2, w2, k) + [k];
      } else {
        assert Select(m1, w1, n) == Select(m1, w1, k);
        assert Select(m2, w2, n) == Select(m2, w2, k);
      }
    }
  }

  function IdSet(ids: seq<nat>): (s: set<nat>)
    ensures forall id :: id in s <==> id in ids
  {
    set id | id in ids
  }

  /** When no row below n satisfies w, nothing is selected. */
  lemma {:induction false} SelectNone(m: map<nat, Record>, w: Where, n: nat)
    requires forall id | id < n && id in m :: !Holds(w, id, m[id])
    ensures Select(m, w, n) == []
  {
    if n > 0 {
      SelectNone(m, w, n - 1);
    }
  }

  /** An increasing sequence has no repeated element, so its set is as large as it is. */
  lemma {:induction false} IncreasingCard(ids: seq<nat>)
    requires Increasing(ids)
    ensures |IdSet(ids)| == |ids|
  {
    if ids != [] {
      var last := |ids| - 1;
      var front := ids[..last];
      IncreasingCard(front);
      assert ids == front + [ids[last]];
      assert IdSet(ids) == IdSet(front) + {ids[last]};
      assert ids[last] !in IdSet(front) by {
        forall i | 0 <= i < last ensures front[i] != ids[last] {
          assert ids[i] < ids[last];
        }
      }
    }
  }

  // ---------------------------------------------------------------------
  // ORDER BY timestamp ASC, LIMIT
  // ---------------------------------------------------------------------

  /**
   * The sort key of a stored timestamp. Timestamps are opaque 8-byte
   * values here; their order is the big-endian order of those bytes,
   * which for the non-negative instants a clock yields is their numeric order.
   */
  function TimeKey(r: Record): nat
  {
    FromBE(r.time)
  }

  predicate AllIn(m: map<nat, Record>, ids: seq<nat>)
  {
    forall i | 0 <= i < |ids| :: ids[i] in m
  }

  predicate SortedByTime(m: map<nat, Record>, ids: seq<nat>)
    requires AllIn(m, ids)
  {
    forall i, j | 0 <= i < j < |ids| :: TimeKey(m[ids[i]]) <= TimeKey(m[ids[j]])
  }

  function InsertByTime(m: map<nat, Record>, id: nat, ids: seq<nat>): (r: seq<nat>)
    requires id in m && AllIn(m, ids)
    ensures multiset(r) == multiset(ids) + multiset{id}
    ensures |r| == |ids| + 1
    ensures AllIn(m, r)
    ensures r[0] == id || (ids != [] && r[0] == ids[0])
  {
    if ids == [] then [id]
    else if TimeKey(m[id]) < TimeKey(m[ids[0]]) then [id] + ids
    else
      assert ids == [ids[0]] + ids[1..];
      [ids[0]] + InsertByTime(m, id, ids[1..])
  }

  /** A bound every listed row and the inserted row meet is met by the whole result. */
  lemma InsertAbove(m: map<nat, Record>, lo: nat, id: nat, ids: seq<nat>)
    requires id in m && AllIn(m, ids) && lo <= TimeKey(m[id])
    requires forall k | 0 <= k < |ids| :: lo <= TimeKey(m[ids[k]])
    ensures forall j | 0 <= j < |InsertByTime(m, id, ids)| :: lo <= TimeKey(m[InsertByTime(m, id, ids)[j]])
  {
    var r := InsertByTime(m, id, ids);
    forall j | 0 <= j < |r| ensures lo <= TimeKey(m[r[j]]) {
      assert r[j] in multiset(r);
      if r[j] != id {
        assert r[j] in multiset(ids);
        var k :| 0 <= k < |ids| && ids[k] == r[j];
      }
    }
  }

  /** Inserting into a sorted list keeps it sorted. */
  lemma {:induction false} InsertSorted(m: map<nat, Record>, id: nat, ids: seq<nat>)
    requires id in m && AllIn(m, ids) && SortedByTime(m, ids)
    ensures SortedByTime(m, InsertByTime(m, id, ids))
  {
    if ids != [] && TimeKey(m[id]) >= TimeKey(m[ids[0]]) {
      var rest := ids[1..];
      assert forall k | 0 <= k < |rest| :: rest[k] == ids[k + 1];
      InsertSorted(m, id, rest);
      InsertAbove(m, TimeKey(m[ids[0]]), id, rest);
      var r := InsertByTime(m, id, ids);
      var tail := InsertByTime(m, id, rest);
      assert r == [ids[0]] + tail;
      forall i, j | 0 <= i < j < |r| ensures TimeKey(m[r[i]]) <= TimeKey(m[r[j]]) {
        assert r[j] == tail[j - 1];
        if i > 0 {
          assert r[i] == tail[i - 1];
        }
      }
    }
  }

  /** ORDER BY timestamp ASC over the selected ids: a stable insertion sort. */
  function SortByTime(m: map<nat, Record>, ids: seq<nat>): (r: seq<nat>)
    requires AllIn(m, ids)
    ensures multiset(r) == multiset(ids)
    ensures |r| == |ids|
    ensures AllIn(m, r)
    ensures SortedByTime(m, r)
  {
    if ids == [] then []
    else
      var last := |ids| - 1;
      assert ids == ids[..last] + [ids[last]];
      InsertSorted(m, ids[last], SortByTime(m, ids[..last]));
      InsertByTime(m, ids[last], SortByTime(m, ids[..last]))
  }

  /** LIMIT n; a negative limit is no limit. */
  function SqlLimit<T>(xs: seq<T>, n: int): (r: seq<T>)
    ensures n < 0 ==> r == xs
    ensures n >= 0 ==> |r| == (if n < |xs| then n else |xs|)
    ensures r == xs[..|r|]
  {
    if n < 0 || n >= |xs| then xs else xs[..n]
  }

  /** A fetched row as the ChatMessage the store hands back. */
  function AsChat(id: nat, r: Record, kind: MessageType): (c: ChatMessage)
    ensures c.messageId == Some(id as int) && c.username == r.sender && c.content == r.content
    ensures c.timestamp == r.time && c.messageType == kind && c.recipients == Some([r.recipient])
    ensures c.fetchCount.None? && c.messageIds.None? && c.password.None?
    ensures c.activeUsers.None? && c.unreadCount.None?
  {
    ChatMessage(
      username := r.sender, content := r.content, timestamp := r.time, messageType := kind,
      recipients := Some([r.recipient]), messageId := Some(id), fetchCount := None,
      messageIds := None, password := None, activeUsers := None, unreadCount := None)
  }

  /** The fetched rows in order; `kind` overrides the stored message type when given. */
  function AsChats(m: map<nat, Record>, ids: seq<nat>, kind: Option<MessageType>): (cs: seq<ChatMessage>)
    requires AllIn(m, ids)
    ensures |cs| == |ids|
    ensures forall i | 0 <= i < |ids| :: cs[i] == AsChat(ids[i], m[ids[i]], kind.GetOr(m[ids[i]].kind))
  {
    seq(|ids|, i requires 0 <= i < |ids| => AsChat(ids[i], m[ids[i]], kind.GetOr(m[ids[i]].kind)))
  }

  // ---------------------------------------------------------------------
  // Queries
  // ---------------------------------------------------------------------

  /** user_exists */
  predicate UserExists(t: Snapshot, u: Text)
  {
    exists i | 0 <= i < |t.accounts| :: t.accounts[i].name == u
  }

  /** verify_user: the account exists and the password's digest is the stored one. */
  predicate VerifyUser(t: Snapshot, hash: Text -> Text, u: Text, password: Text)
  {
    exists i | 0 <= i < |t.accounts| :: t.accounts[i].name == u && t.accounts[i].hash == hash(password)
  }

  function Names(accounts: seq<Account>): (names: seq<Text>)
    ensures |names| == |accounts|
    ensures forall i | 0 <= i < |accounts| :: names[i] == accounts[i].name
  {
    if accounts == [] then [] else [accounts[0].name] + Names(accounts[1..])
  }

  /** get_all_users: every username once, in account creation order. */
  function AllUsers(t: Snapshot): (names: seq<Text>)
    requires Valid(t)
    ensures |names| == |t.accounts|
    ensures forall u :: u in names <==> UserExists(t, u)
    ensures forall i, j | 0 <= i < j < |names| :: names[i] != names[j]
  {
    Names(t.accounts)
  }

  /** get_unread_count: the rows addressed to u and not yet read. */
  function UnreadCount(t: Snapshot, u: Text): nat
  {
    |Select(t.messages, UnreadFor(u), t.nextId)|
  }

  /** The row ids get_unread_messages returns, oldest first. */
  function UnreadIds(t: Snapshot, u: Text, limit: Option<int>): (ids: seq<nat>)
    requires Valid(t)
    ensures AllIn(t.messages, ids)
    ensures var sorted := SortByTime(t.messages, Select(t.messages, UnreadFor(u), t.nextId));
      |ids| <= |sorted| && ids == sorted[..|ids|]
  {
    var sorted := SortByTime(t.messages, Select(t.messages, UnreadFor(u), t.nextId));
    var ids := SqlLimit(sorted, if limit.Some? && limit.value != 0 then limit.value else -1);
    PrefixSorted(t.messages, sorted, ids);
    ids
  }

  /** get_unread_messages: the unread rows for u, oldest first; LIMIT applies only when a non-zero limit is given. */
  function UnreadMessages(t: Snapshot, u: Text, limit: Option<int>): (cs: seq<ChatMessage>)
    requires Valid(t)
  {
    AsChats(t.messages, UnreadIds(t, u, limit), None)
  }

  /** The row ids get_messages_between_users returns, oldest first. */
  function ConversationIds(t: Snapshot, a: Text, b: Text, limit: int): (ids: seq<nat>)
    requires Valid(t)
    ensures AllIn(t.messages, ids)
    ensures var sorted := SortByTime(t.messages, Select(t.messages, Between(a, b), t.nextId));
      |ids| <= |sorted| && ids == sorted[..|ids|]
  {
    var sorted := SortByTime(t.messages, Select(t.messages, Between(a, b), t.nextId));
    var ids := SqlLimit(sorted, limit);
    PrefixSorted(t.messages, sorted, ids);
    ids
  }

  /** get_messages_between_users: the conversation in both directions, oldest first, typed as direct messages. */
  function Conversation(t: Snapshot, a: Text, b: Text, limit: int): (cs: seq<ChatMessage>)
    requires Valid(t)
  {
    AsChats(t.messages, ConversationIds(t, a, b, limit), Some(Dm))
  }

  // ---------------------------------------------------------------------
  // Statements
  // ---------------------------------------------------------------------

  /** create_user: the primary key refuses a second account with the same name. */
  function CreateUser(t: Snapshot, u: Text, digest: Text): (r: (Snapshot, bool))
    ensures r.1 <==> !UserExists(t, u)
    ensures r.1 ==> r.0 == t.(accounts := t.accounts + [Account(u, digest)])
    ensures !r.1 ==> r.0 == t
    ensures Valid(t) ==> Valid(r.0)
  {
    if UserExists(t, u) then (t, false)
    else (t.(accounts := t.accounts + [Account(u, digest)]), true)
  }

  /**
   * store_message: the recipient column takes the first recipient. With no
   * recipient the NOT NULL constraint refuses the row: nothing changes and
   * no id is returned.
   */
  function StoreMessage(t: Snapshot, msg: ChatMessage): (r: (Snapshot, Option<nat>))
    ensures r.1.None? <==> !NonEmpty(msg.recipients)
    ensures r.1.None? ==> r.0 == t
    ensures Valid(t) ==> Valid(r.0)
    ensures r.1.Some? ==>
      && r.1.value == t.nextId && r.0.nextId == t.nextId + 1 && r.0.accounts == t.accounts
      && r.0.messages == t.messages[t.nextId := Record(msg.username, msg.recipients.value[0],
                                                       msg.content, msg.timestamp, msg.messageType, false, false)]
  {
    if !NonEmpty(msg.recipients) then (t, None)
    else
      var row := Record(msg.username, msg.recipients.value[0], msg.content, msg.timestamp, msg.messageType, false, false);
      (t.(messages := t.messages[t.nextId := row], nextId := t.nextId + 1), Some(t.nextId))
  }

  /** An UPDATE that sets one flag to TRUE on the rows satisfying w. */
  function SetFlag(m: map<nat, Record>, w: Where, readFlag: bool): (r: map<nat, Record>)
    ensures r.Keys == m.Keys
    ensures forall id | id in m && !Holds(w, id, m[id]) :: r[id] == m[id]
    ensures forall id | id in m && Holds(w, id, m[id]) ::
      r[id] == if readFlag then m[id].(read := true) else m[id].(delivered := true)
  {
    map id | id in m :: if !Holds(w, id, m[id]) then m[id]
                        else if readFlag then m[id].(read := true) else m[id].(delivered := true)
  }

  /** mark_delivered: SET delivered = TRUE WHERE id = ? */
  function MarkDelivered(t: Snapshot, id: int): (t': Snapshot)
    ensures Valid(t) ==> Valid(t')
  {
    t.(messages := SetFlag(t.messages, IdIn([id]), false))
  }

  /** mark_delivered sets the flag on the row with that id and on no other. */
  lemma MarkDeliveredOne(t: Snapshot, id: int)
    ensures MarkDelivered(t, id).messages.Keys == t.messages.Keys
    ensures forall k | k in t.messages ::
      MarkDelivered(t, id).messages[k] == if k as int == id then t.messages[k].(delivered := true) else t.messages[k]
  {
    assert forall k | k in t.messages :: Holds(IdIn([id]), k, t.messages[k]) <==> k as int == id;
  }

  /** One mark_delivered per id, in order. */
  function MarkAllDelivered(t: Snapshot, ids: seq<int>): (t': Snapshot)
    ensures Valid(t) ==> Valid(t')
    ensures t'.accounts == t.accounts && t'.nextId == t.nextId && t'.messages.Keys == t.messages.Keys
    ensures forall id | id in t.messages ::
      t'.messages[id] == if id as int in ids then t.messages[id].(delivered := true) else t.messages[id]
  {
    if ids == [] then t
    else
      var front := ids[..|ids| - 1];
      var last := ids[|ids| - 1];
      var before := MarkAllDelivered(t, front);
      MarkDeliveredOne(before, last);
      assert forall id :: id in ids <==> id in front || id == last by {
        assert ids == front + [last];
      }
      MarkDelivered(before, last)
  }

  /** mark_read: SET read_status = TRUE WHERE id IN (ids) AND recipient = u */
  function MarkRead(t: Snapshot, ids: seq<int>, u: Text): (t': Snapshot)
    ensures Valid(t) ==> Valid(t')
  {
    t.(messages := SetFlag(t.messages, And(IdIn(ids), To(u)), true))
  }

  /** mark_read_from_user: SET read_status = TRUE WHERE sender = s AND recipient = r AND read_status = FALSE */
  function MarkReadFromUser(t: Snapshot, r: Text, s: Text): (t': Snapshot)
    ensures Valid(t) ==> Valid(t')
  {
    t.(messages := SetFlag(t.messages, And(FromTo(s, r), Unread), true))
  }

  /** DELETE FROM messages WHERE w */
  function DeleteWhere(m: map<nat, Record>, w: Where): (r: map<nat, Record>)
    ensures forall id :: id in r <==> id in m && !Holds(w, id, m[id])
    ensures forall id | id in r :: r[id] == m[id]
  {
    map id | id in m && !Holds(w, id, m[id]) :: m[id]
  }

  /** What delete_messages reports per deleted row: its recipient and whether it was unread. */
  function DeletedInfo(m: map<nat, Record>, ids: seq<nat>): (info: seq<(Text, bool)>)
    requires AllIn(m, ids)
    ensures |info| == |ids|
    ensures forall i | 0 <= i < |ids| :: info[i] == (m[ids[i]].recipient, !m[ids[i]].read)
  {
    seq(|ids|, i requires 0 <= i < |ids| => (m[ids[i]].recipient, !m[ids[i]].read))
  }

  /** The WHERE clause shared by both statements of delete_messages. */
  function DeleteClause(ids: seq<int>, u: Text, r: Text): (w: Where)
    ensures forall id, x :: Holds(w, id, x) <==>
      (id in ids && ((x.sender == u && x.recipient == r) || (x.sender == r && x.recipient == u)))
  {
    And(IdIn(ids), Between(u, r))
  }

  /**
   * delete_messages: first SELECT (recipient, read_status = FALSE), then
   * DELETE, both with the same clause; returns the deleted row count and
   * that information, in ascending id order.
   */
  function DeleteMessages(t: Snapshot, ids: seq<int>, u: Text, r: Text): (res: (Snapshot, nat, seq<(Text, bool)>))
    ensures Valid(t) ==> Valid(res.0)
  {
    var w := DeleteClause(ids, u, r);
    var hit := Select(t.messages, w, t.nextId);
    (t.(messages := DeleteWhere(t.messages, w)), |hit|, DeletedInfo(t.messages, hit))
  }

  function RemoveAccount(accounts: seq<Account>, u: Text): (r: seq<Account>)
    ensures forall a | a in r :: a in accounts && a.name != u
    ensures forall a | a in accounts && a.name != u :: a in r
    ensures UniqueNames(accounts) ==> UniqueNames(r)
  {
    if accounts == [] then []
    else if accounts[0].name == u then RemoveAccount(accounts[1..], u)
    else [accounts[0]] + RemoveAccount(accounts[1..], u)
  }

  /**
   * delete_user: delete every message the user sent or received, then the
   * account; the result is whether an account row was deleted.
   */
  function DeleteUser(t: Snapshot, u: Text): (r: (Snapshot, bool))
    ensures Valid(t) ==> Valid(r.0)
  {
    (t.(accounts := RemoveAccount(t.accounts, u), messages := DeleteWhere(t.messages, Involving(u))),
     UserExists(t, u))
  }

  // ---------------------------------------------------------------------
  // Properties
  // ---------------------------------------------------------------------

  /** A row is the same row with possibly more flags set. */
  predicate Rises(before: Record, after: Record)
  {
    && after == before.(read := after.read, delivered := after.delivered)
    && (before.read ==> after.read)
    && (before.delivered ==> after.delivered)
  }

  /** No row that survives a statement has a flag cleared or another column changed. */
  predicate FlagsMonotonic(before: Snapshot, after: Snapshot)
  {
    forall id | id in before.messages && id in after.messages :: Rises(before.messages[id], after.messages[id])
  }

  /** The UPDATE statements only ever move read and delivered to TRUE. */
  lemma FlagsOnlyRise(t: Snapshot, ids: seq<int>, id: int, u: Text, r: Text)
    ensures FlagsMonotonic(t, MarkDelivered(t, id))
    ensures FlagsMonotonic(t, MarkRead(t, ids, u))
    ensures FlagsMonotonic(t, MarkReadFromUser(t, u, r))
  {
  }

  /** The INSERT and DELETE statements leave every row they keep exactly as it was. */
  lemma RowsKept(t: Snapshot, msg: ChatMessage, ids: seq<int>, u: Text, r: Text, digest: Text)
    requires Valid(t)
    ensures FlagsMonotonic(t, CreateUser(t, u, digest).0)
    ensures FlagsMonotonic(t, StoreMessage(t, msg).0)
    ensures FlagsMonotonic(t, DeleteMessages(t, ids, u, r).0)
    ensures FlagsMonotonic(t, DeleteUser(t, u).0)
  {
  }

  /** store_message adds one unread, undelivered row under a fresh id and changes no other row. */
  lemma StoreAddsOneRow(t: Snapshot, msg: ChatMessage)
    requires Valid(t) && NonEmpty(msg.recipients)
    ensures var (t', id) := StoreMessage(t, msg);
      && id.Some? && id.value !in t.messages
      && t'.messages.Keys == t.messages.Keys + {id.value}
      && t'.messages[id.value].recipient == msg.recipients.value[0]
      && !t'.messages[id.value].read && !t'.messages[id.value].delivered
      && forall k | k in t.messages :: t'.messages[k] == t.messages[k]
  {
  }

  /** The unread count is the number of unread messages fetched without a limit. */
  lemma UnreadCountMatchesMessages(t: Snapshot, u: Text)
    requires Valid(t)
    ensures UnreadCount(t, u) == |UnreadMessages(t, u, None)|
  {
  }

  /** Sorting the selected ids keeps exactly the selected rows. */
  lemma SortedSelection(m: map<nat, Record>, w: Where, n: nat)
    ensures AllIn(m, Select(m, w, n))
    ensures forall id :: id in SortByTime(m, Select(m, w, n)) <==> id < n && id in m && Holds(w, id, m[id])
  {
    var sel := Select(m, w, n);
    var sorted := SortByTime(m, sel);
    forall id ensures id in sorted <==> id in sel {
      assert id in sorted <==> id in multiset(sorted);
      assert id in sel <==> id in multiset(sel);
    }
  }

  /** Every unread message fetched for u, whatever the limit, is addressed to u alone. */
  lemma UnreadMessagesAddressed(t: Snapshot, u: Text, limit: Option<int>)
    requires Valid(t)
    ensures forall c | c in UnreadMessages(t, u, limit) :: c.recipients == Some([u])
  {
    var ids := UnreadIds(t, u, limit);
    UnreadIdsRows(t, u, limit);
    var cs := UnreadMessages(t, u, limit);
    forall c | c in cs ensures c.recipients == Some([u]) {
      var i :| 0 <= i < |cs| && c == cs[i];
      assert ids[i] in ids;
    }
  }

  /** Without a limit, every unread row addressed to u is fetched. */
  lemma UnreadIdsComplete(t: Snapshot, u: Text)
    requires Valid(t)
    ensures forall id | id in t.messages && t.messages[id].recipient == u && !t.messages[id].read ::
      id in UnreadIds(t, u, None)
  {
    SortedSelection(t.messages, UnreadFor(u), t.nextId);
  }

  /** With a negative limit, every row of the conversation of a and b is fetched. */
  lemma ConversationIdsComplete(t: Snapshot, a: Text, b: Text, limit: int)
    requires Valid(t) && limit < 0
    ensures forall id | id in t.messages &&
      ((t.messages[id].sender == a && t.messages[id].recipient == b) ||
       (t.messages[id].sender == b && t.messages[id].recipient == a)) ::
      id in ConversationIds(t, a, b, limit)
  {
    SortedSelection(t.messages, Between(a, b), t.nextId);
  }

  /** get_unread_count counts the distinct rows addressed to u that are unread. */
  lemma UnreadCountCounts(t: Snapshot, u: Text)
    requires Valid(t)
    ensures UnreadCount(t, u) == |set id | id in t.messages && t.messages[id].recipient == u && !t.messages[id].read|
  {
    var sel := Select(t.messages, UnreadFor(u), t.nextId);
    IncreasingCard(sel);
    assert IdSet(sel) == (set id | id in t.messages && t.messages[id].recipient == u && !t.messages[id].read);
  }

  /** verify_user compares with the digest stored under that name, and only an existing user verifies. */
  lemma VerifyUserByStoredHash(t: Snapshot, hash: Text -> Text, u: Text, password: Text)
    requires Valid(t)
    ensures VerifyUser(t, hash, u, password) ==> UserExists(t, u)
    ensures forall i | 0 <= i < |t.accounts| && t.accounts[i].name == u ::
      VerifyUser(t, hash, u, password) <==> t.accounts[i].hash == hash(password)
  {
  }

  /** After create_user, user_exists holds for the new name and is unchanged for every other name. */
  lemma CreatedUserExists(t: Snapshot, u: Text, digest: Text)
    ensures UserExists(CreateUser(t, u, digest).0, u)
    ensures forall v | v != u :: UserExists(CreateUser(t, u, digest).0, v) <==> UserExists(t, v)
  {
    var t' := CreateUser(t, u, digest).0;
    if !UserExists(t, u) {
      assert t'.accounts[|t.accounts|].name == u;
      forall v | v != u && UserExists(t', v) ensures UserExists(t, v) {
        var i :| 0 <= i < |t'.accounts| && t'.accounts[i].name == v;
        assert i < |t.accounts|;
        assert t.accounts[i].name == v;
      }
      forall v | UserExists(t, v) ensures UserExists(t', v) {
        var i :| 0 <= i < |t.accounts| && t.accounts[i].name == v;
        assert t'.accounts[i].name == v;
      }
    }
  }

  /** A prefix holds only elements of the whole. */
  lemma PrefixMembers(xs: seq<nat>, ys: seq<nat>)
    requires |ys| <= |xs| && ys == xs[..|ys|]
    ensures forall y | y in ys :: y in xs
  {
    forall y | y in ys ensures y in xs {
      var i :| 0 <= i < |ys| && ys[i] == y;
      assert xs[i] == y;
    }
  }

  /** A prefix of a list sorted by time is sorted by time. */
  lemma PrefixSorted(m: map<nat, Record>, xs: seq<nat>, ys: seq<nat>)
    requires AllIn(m, xs) && SortedByTime(m, xs) && |ys| <= |xs| && ys == xs[..|ys|]
    ensures AllIn(m, ys) && SortedByTime(m, ys)
  {
    assert forall i | 0 <= i < |ys| :: ys[i] == xs[i];
  }

  /** A limited fetch returns at most the limit, oldest first. */
  lemma UnreadMessagesShape(t: Snapshot, u: Text, limit: Option<int>)
    requires Valid(t)
    ensures limit.Some? && limit.value > 0 ==> |UnreadMessages(t, u, limit)| <= limit.value
    ensures SortedByTime(t.messages, UnreadIds(t, u, limit))
  {
    var sorted := SortByTime(t.messages, Select(t.messages, UnreadFor(u), t.nextId));
    PrefixSorted(t.messages, sorted, UnreadIds(t, u, limit));
  }

  /** Every row a fetch returns is unread and addressed to u. */
  lemma UnreadIdsRows(t: Snapshot, u: Text, limit: Option<int>)
    requires Valid(t)
    ensures forall id | id in UnreadIds(t, u, limit) :: t.messages[id].recipient == u && !t.messages[id].read
  {
    var sorted := SortByTime(t.messages, Select(t.messages, UnreadFor(u), t.nextId));
    SortedSelection(t.messages, UnreadFor(u), t.nextId);
    PrefixMembers(sorted, UnreadIds(t, u, limit));
  }

  /**
   * get_messages_between_users returns at most `limit` rows (when the limit
   * is not negative), every one in the conversation of a and b in one
   * direction or the other, in ascending timestamp order.
   */
  lemma ConversationShape(t: Snapshot, a: Text, b: Text, limit: int)
    requires Valid(t)
    ensures limit >= 0 ==> |Conversation(t, a, b, limit)| <= limit
    ensures forall c | c in Conversation(t, a, b, limit) ::
      && c.messageType == Dm && c.recipients.Some? && |c.recipients.value| == 1
      && ((c.username == a && c.recipients.value[0] == b) || (c.username == b && c.recipients.value[0] == a))
    ensures forall i, j | 0 <= i < j < |Conversation(t, a, b, limit)| ::
      FromBE(Conversation(t, a, b, limit)[i].timestamp) <= FromBE(Conversation(t, a, b, limit)[j].timestamp)
  {
    var ids := ConversationIds(t, a, b, limit);
    ConversationIdsShape(t, a, b, limit);
    var cs := Conversation(t, a, b, limit);
    forall c | c in cs
      ensures && c.messageType == Dm && c.recipients.Some? && |c.recipients.value| == 1
              && ((c.username == a && c.recipients.value[0] == b) || (c.username == b && c.recipients.value[0] == a))
    {
      var i :| 0 <= i < |cs| && c == cs[i];
      assert ids[i] in ids;
    }
  }

  lemma ConversationIdsShape(t: Snapshot, a: Text, b: Text, limit: int)
    requires Valid(t)
    ensures limit >= 0 ==> |ConversationIds(t, a, b, limit)| <= limit
    ensures forall id | id in ConversationIds(t, a, b, limit) ::
      (t.messages[id].sender == a && t.messages[id].recipient == b) ||
      (t.messages[id].sender == b && t.messages[id].recipient == a)
    ensures SortedByTime(t.messages, ConversationIds(t, a, b, limit))
  {
    var sorted := SortByTime(t.messages, Select(t.messages, Between(a, b), t.nextId));
    var ids := ConversationIds(t, a, b, limit);
    SortedSelection(t.messages, Between(a, b), t.nextId);
    PrefixMembers(sorted, ids);
    PrefixSorted(t.messages, sorted, ids);
  }

  /**
   * mark_read touches only rows whose id is listed and whose recipient is u,
   * and marks every such row read.
   */
  lemma MarkReadExactly(t: Snapshot, ids: seq<int>, u: Text)
    ensures MarkRead(t, ids, u).messages.Keys == t.messages.Keys
    ensures forall id | id in t.messages ::
      MarkRead(t, ids, u).messages[id] ==
        if id in ids && t.messages[id].recipient == u then t.messages[id].(read := true) else t.messages[id]
  {
    forall id | id in t.messages
      ensures Holds(And(IdIn(ids), To(u)), id, t.messages[id]) <==> id in ids && t.messages[id].recipient == u
    {
    }
  }

  /** mark_read_from_user marks every row from s to r read and touches no other row. */
  lemma MarkReadFromUserExactly(t: Snapshot, r: Text, s: Text)
    ensures MarkReadFromUser(t, r, s).messages.Keys == t.messages.Keys
    ensures forall id | id in t.messages ::
      MarkReadFromUser(t, r, s).messages[id] ==
        if t.messages[id].sender == s && t.messages[id].recipient == r then t.messages[id].(read := true) else t.messages[id]
  {
    var m := t.messages;
    var w := And(FromTo(s, r), Unread);
    var m' := MarkReadFromUser(t, r, s).messages;
    assert m' == SetFlag(m, w, true);
    forall id | id in m
      ensures m'[id] == if m[id].sender == s && m[id].recipient == r then m[id].(read := true) else m[id]
    {
      assert Holds(w, id, m[id]) <==> m[id].sender == s && m[id].recipient == r && !m[id].read;
      if m[id].sender == s && m[id].recipient == r && m[id].read {
        assert m[id].(read := true) == m[id];
      }
    }
  }

  /** After mark_read_from_user, r's unread count drops by exactly the number of unread rows s sent r. */
  lemma MarkReadFromUserCount(t: Snapshot, r: Text, s: Text)
    requires Valid(t)
    ensures UnreadCount(MarkReadFromUser(t, r, s), r) ==
      UnreadCount(t, r) - |Select(t.messages, And(UnreadFor(r), From(s)), t.nextId)|
  {
    var m := t.messages;
    var m' := MarkReadFromUser(t, r, s).messages;
    SelectSplit(m, UnreadFor(r), From(s), t.nextId);
    forall id: nat | id < t.nextId
      ensures (id in m' && Holds(UnreadFor(r), id, m'[id])) <==>
              (id in m && Holds(And(UnreadFor(r), Not(From(s))), id, m[id]))
    {
      StillUnreadAfterMark(t, r, s, id);
    }
    SelectSame(m', UnreadFor(r), m, And(UnreadFor(r), Not(From(s))), t.nextId);
  }

  /** One row is unread for r after mark_read_from_user exactly when it was and s did not send it. */
  lemma StillUnreadAfterMark(t: Snapshot, r: Text, s: Text, id: nat)
    ensures var m' := MarkReadFromUser(t, r, s).messages;
      (id in m' && Holds(UnreadFor(r), id, m'[id])) <==>
      (id in t.messages && Holds(And(UnreadFor(r), Not(From(s))), id, t.messages[id]))
  {
    MarkReadFromUserExactly(t, r, s);
    var m := t.messages;
    if id in m {
      assert Holds(From(s), id, m[id]) <==> m[id].sender == s;
      assert Holds(And(UnreadFor(r), Not(From(s))), id, m[id]) <==>
        m[id].recipient == r && !m[id].read && m[id].sender != s;
    }
  }

  /**
   * delete_messages removes exactly the listed rows of the conversation of
   * u and r, in either direction, and keeps every other row as it was.
   */
  lemma DeleteMessagesRows(t: Snapshot, ids: seq<int>, u: Text, r: Text)
    ensures var t' := DeleteMessages(t, ids, u, r).0;
      && t'.accounts == t.accounts && t'.nextId == t.nextId
      && (forall id :: id in t'.messages <==>
            (id in t.messages && !(id in ids && (
               (t.messages[id].sender == u && t.messages[id].recipient == r) ||
               (t.messages[id].sender == r && t.messages[id].recipient == u)))))
      && (forall id | id in t'.messages :: t'.messages[id] == t.messages[id])
  {
  }

  /** A DELETE removes as many rows as the same clause selects. */
  lemma DeleteCount(m: map<nat, Record>, w: Where, n: nat)
    requires forall id | id in m :: id < n
    ensures |m.Keys| == |DeleteWhere(m, w).Keys| + |Select(m, w, n)|
  {
    var hit := Select(m, w, n);
    var kept := DeleteWhere(m, w).Keys;
    IncreasingCard(hit);
    assert m.Keys == kept + IdSet(hit);
    assert kept * IdSet(hit) == {};
  }

  /** delete_messages reports the number of rows it removed, with one (recipient, was unread) pair per removed row. */
  lemma DeleteMessagesCount(t: Snapshot, ids: seq<int>, u: Text, r: Text)
    requires Valid(t)
    ensures var (t', n, info) := DeleteMessages(t, ids, u, r);
      n == |info| == |t.messages.Keys| - |t'.messages.Keys|
  {
    DeleteCount(t.messages, DeleteClause(ids, u, r), t.nextId);
  }

  /** The pairs delete_messages reports are those of the rows it removed. */
  lemma DeleteMessagesReport(t: Snapshot, ids: seq<int>, u: Text, r: Text)
    requires Valid(t)
    ensures var (t', n, info) := DeleteMessages(t, ids, u, r);
      && (forall p | p in info :: exists id | id in t.messages && id !in t'.messages ::
            p == (t.messages[id].recipient, !t.messages[id].read))
      && (forall id | id in t.messages && id !in t'.messages ::
            (t.messages[id].recipient, !t.messages[id].read) in info)
  {
    var w := DeleteClause(ids, u, r);
    var hit := Select(t.messages, w, t.nextId);
    var kept := DeleteWhere(t.messages, w);
    var info := DeletedInfo(t.messages, hit);
    forall p | p in info
      ensures exists id | id in t.messages && id !in kept :: p == (t.messages[id].recipient, !t.messages[id].read)
    {
      var i :| 0 <= i < |hit| && p == info[i];
      assert hit[i] in t.messages && hit[i] !in kept;
    }
    forall id | id in t.messages && id !in kept
      ensures (t.messages[id].recipient, !t.messages[id].read) in info
    {
      var i :| 0 <= i < |hit| && hit[i] == id;
      assert info[i] == (t.messages[id].recipient, !t.messages[id].read);
    }
  }

  /** Ids outside the conversation of u and r delete nothing and report nothing. */
  lemma DeleteOutsideConversation(t: Snapshot, ids: seq<int>, u: Text, r: Text)
    requires Valid(t)
    requires forall id | id in ids && id in t.messages ::
      !((t.messages[id].sender == u && t.messages[id].recipient == r) ||
        (t.messages[id].sender == r && t.messages[id].recipient == u))
    ensures DeleteMessages(t, ids, u, r).0 == t
    ensures DeleteMessages(t, ids, u, r).1 == 0 && DeleteMessages(t, ids, u, r).2 == []
  {
    var w := DeleteClause(ids, u, r);
    var hit := Select(t.messages, w, t.nextId);
    SelectNone(t.messages, w, t.nextId);
    assert DeletedInfo(t.messages, hit) == [];
    assert DeleteWhere(t.messages, w) == t.messages;
  }

  /**
   * delete_user leaves no account named u and no message u sent or
   * received, keeps every other account and message, and reports whether
   * the account existed.
   */
  lemma DeleteUserExactly(t: Snapshot, u: Text)
    requires Valid(t)
    ensures var (t', existed) := DeleteUser(t, u);
      && (existed <==> UserExists(t, u))
      && !UserExists(t', u)
      && (forall v | v != u :: UserExists(t', v) <==> UserExists(t, v))
      && (forall id :: id in t'.messages <==> id in t.messages && t.messages[id].sender != u && t.messages[id].recipient != u)
      && forall id | id in t'.messages :: t'.messages[id] == t.messages[id]
  {
    var t' := DeleteUser(t, u).0;
    forall v | v != u ensures UserExists(t', v) <==> UserExists(t, v) {
      if UserExists(t, v) {
        var i :| 0 <= i < |t.accounts| && t.accounts[i].name == v;
        assert t.accounts[i] in t'.accounts;
      }
      if UserExists(t', v) {
        var i :| 0 <= i < |t'.accounts| && t'.accounts[i].name == v;
        assert t'.accounts[i] in t'.accounts;
      }
    }
  }
}
