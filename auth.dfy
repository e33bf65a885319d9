/** Connections are identified by an opaque socket id. */
module Sockets {
  type SocketId = nat
}

/**
 * The account manager: account creation and deletion against its own
 * users table, password checks, and the registry of logged-in users,
 * a dictionary from username to socket that remembers insertion order.
 */
module Accounts {
  import opened Octets
  import opened Wrappers
  import opened Schemas
  import opened Sockets

  /** A response carrying a status and a message. */
  datatype BaseResponse = BaseResponse(status: Status, message: Text)

  /** The response to a login, with the number of unread messages. */
  datatype LoginResponse = LoginResponse(status: Status, message: Text, unreadMessages: nat)

  /** A row of this manager's messages table, as far as login reads it. */
  datatype Mail = Mail(recipient: Text, read: bool)

  const USERNAME_EMPTY: Text := Ascii("Username cannot be empty")
  const USERNAME_EXISTS: Text := Ascii("Username already exists")
  const ACCOUNT_CREATED: Text := Ascii("Account created successfully")
  const NO_SUCH_USER: Text := Ascii("User does not exist")
  const LOGIN_OK: Text := Ascii("Login successful")
  const BAD_PASSWORD: Text := Ascii("Invalid password")
  const ACCOUNT_NOT_FOUND: Text := Ascii("Account not found")
  const ACCOUNT_DELETED_OK: Text := Ascii("Account deleted successfully")

  // ---------------------------------------------------------------------
  // The registry as an insertion-ordered dictionary
  // ---------------------------------------------------------------------

  type Registry = seq<(Text, SocketId)>

  /** Each username appears at most once. */
  predicate UniqueKeys(reg: Registry)
  {
    forall i, j | 0 <= i < j < |reg| :: reg[i].0 != reg[j].0
  }

  /** The socket registered for u, if any. */
  function Lookup(reg: Registry, u: Text): (r: Option<SocketId>)
    ensures r.None? <==> forall i | 0 <= i < |reg| :: reg[i].0 != u
    ensures r.Some? ==> exists i | 0 <= i < |reg| :: reg[i] == (u, r.value)
  {
    if reg == [] then None
    else if reg[0].0 == u then Some(reg[0].1)
    else Lookup(reg[1..], u)
  }

  /** `reg[u] = s`: an existing key keeps its place and takes the new socket; a new key goes last. */
  function Assign(reg: Registry, u: Text, s: SocketId): (r: Registry)
    ensures |r| == |reg| || r == reg + [(u, s)]
  {
    if reg == [] then [(u, s)]
    else if reg[0].0 == u then [(u, s)] + reg[1..]
    else [reg[0]] + Assign(reg[1..], u, s)
  }

  /** `reg.pop(u, None)`: the entry for u, if any, is removed; the others keep their order. */
  function Pop(reg: Registry, u: Text): (r: Registry)
    ensures |r| <= |reg|
    ensures forall i | 0 <= i < |r| :: r[i] in reg && r[i].0 != u
  {
    if reg == [] then []
    else if reg[0].0 == u then Pop(reg[1..], u)
    else [reg[0]] + Pop(reg[1..], u)
  }

  /** The registry without its first entry whose socket is s. */
  function RemoveFirst(reg: Registry, s: SocketId): (r: Registry)
  {
    if reg == [] then []
    else if reg[0].1 == s then reg[1..]
    else [reg[0]] + RemoveFirst(reg[1..], s)
  }

  /** After assignment u maps to s and every other name keeps its socket; an existing key keeps its place. */
  lemma {:induction false} AssignLookup(reg: Registry, u: Text, s: SocketId)
    ensures Lookup(Assign(reg, u, s), u) == Some(s)
    ensures forall v | v != u :: Lookup(Assign(reg, u, s), v) == Lookup(reg, v)
    ensures Lookup(reg, u).Some? ==> |Assign(reg, u, s)| == |reg|
  {
    var r := Assign(reg, u, s);
    if reg == [] {
    } else if reg[0].0 == u {
      assert r[1..] == reg[1..];
      forall v | v != u ensures Lookup(r, v) == Lookup(reg, v) {
        assert Lookup(r, v) == Lookup(r[1..], v);
      }
    } else {
      AssignLookup(reg[1..], u, s);
      var tail := Assign(reg[1..], u, s);
      assert r == [reg[0]] + tail && r[1..] == tail;
      forall v | v != u ensures Lookup(r, v) == Lookup(reg, v) {
        if v != reg[0].0 {
          assert Lookup(r, v) == Lookup(tail, v);
        }
      }
    }
  }

  /** Assignment adds no key but u. */
  lemma {:induction false} AssignKeys(reg: Registry, u: Text, s: SocketId)
    ensures forall i | 0 <= i < |Assign(reg, u, s)| ::
      Assign(reg, u, s)[i].0 == u || exists k | 0 <= k < |reg| :: reg[k].0 == Assign(reg, u, s)[i].0
  {
    if reg != [] && reg[0].0 != u {
      AssignKeys(reg[1..], u, s);
      var tail := Assign(reg[1..], u, s);
      var r := Assign(reg, u, s);
      forall i | 1 <= i < |r| ensures r[i].0 == u || exists k | 0 <= k < |reg| :: reg[k].0 == r[i].0 {
        assert r[i] == tail[i - 1];
        assert tail[i - 1].0 == u || exists k | 0 <= k < |reg[1..]| :: reg[1..][k].0 == tail[i - 1].0;
        if r[i].0 != u {
          var k :| 0 <= k < |reg[1..]| && reg[1..][k].0 == tail[i - 1].0;
          assert reg[k + 1].0 == r[i].0;
        }
      }
    } else if reg != [] {
      var r := Assign(reg, u, s);
      forall i | 1 <= i < |r| ensures exists k | 0 <= k < |reg| :: reg[k].0 == r[i].0 {
        assert reg[i].0 == r[i].0;
      }
    }
  }

  /** Assignment keeps the keys unique. */
  lemma {:induction false} AssignUnique(reg: Registry, u: Text, s: SocketId)
    requires UniqueKeys(reg)
    ensures UniqueKeys(Assign(reg, u, s))
  {
    var r := Assign(reg, u, s);
    if reg == [] {
    } else if reg[0].0 == u {
      forall i, j | 0 <= i < j < |r| ensures r[i].0 != r[j].0 {
        assert r[i].0 == reg[i].0 && r[j].0 == reg[j].0;
      }
    } else {
      AssignUnique(reg[1..], u, s);
      AssignKeys(reg[1..], u, s);
      var tail := Assign(reg[1..], u, s);
      assert r == [reg[0]] + tail;
      forall j | 0 < j < |r| ensures r[j].0 != r[0].0 {
        assert r[j] == tail[j - 1];
        assert tail[j - 1].0 == u || exists k | 0 <= k < |reg[1..]| :: reg[1..][k].0 == tail[j - 1].0;
        if tail[j - 1].0 != u {
          var k :| 0 <= k < |reg[1..]| && reg[1..][k].0 == tail[j - 1].0;
          assert reg[k + 1].0 == r[j].0;
        }
      }
      forall i, j | 0 <= i < j < |r| ensures r[i].0 != r[j].0 {
        if i > 0 {
          assert r[i] == tail[i - 1] && r[j] == tail[j - 1];
        }
      }
    }
  }

  /** Popping u leaves u unregistered and every other name as it was. */
  lemma {:induction false} PopProperties(reg: Registry, u: Text)
    requires UniqueKeys(reg)
    ensures Lookup(Pop(reg, u), u).None?
    ensures forall v | v != u :: Lookup(Pop(reg, u), v) == Lookup(reg, v)
    ensures UniqueKeys(Pop(reg, u))
    ensures Lookup(reg, u).None? ==> Pop(reg, u) == reg
  {
    PopKeepsUnique(reg, u);
    if reg != [] {
      var r := Pop(reg, u);
      PopProperties(reg[1..], u);
      var tail := Pop(reg[1..], u);
      if reg[0].0 == u {
        assert r == tail;
        forall v | v != u ensures Lookup(r, v) == Lookup(reg, v) {
          assert Lookup(reg, v) == Lookup(reg[1..], v);
        }
      } else {
        assert r == [reg[0]] + tail && r[1..] == tail;
        forall v | v != u ensures Lookup(r, v) == Lookup(reg, v) {
          if v != reg[0].0 {
            assert Lookup(r, v) == Lookup(tail, v);
          }
        }
      }
    }
  }

  lemma {:induction false} PopKeepsUnique(reg: Registry, u: Text)
    requires UniqueKeys(reg)
    ensures UniqueKeys(Pop(reg, u))
  {
    if reg != [] {
      var r := Pop(reg, u);
      PopKeepsUnique(reg[1..], u);
      var tail := Pop(reg[1..], u);
      if reg[0].0 != u {
        assert r == [reg[0]] + tail;
        forall j | 0 <= j < |tail| ensures tail[j].0 != reg[0].0 {
          var i :| 0 <= i < |reg[1..]| && reg[1..][i] == tail[j];
          assert reg[i + 1] == tail[j];
        }
        forall i, j | 0 <= i < j < |r| ensures r[i].0 != r[j].0 {
          if i > 0 {
            assert r[i] == tail[i - 1] && r[j] == tail[j - 1];
          } else {
            assert r[j] == tail[j - 1];
          }
        }
      }
    }
  }

  /** A socket that is not registered changes nothing. */
  lemma {:induction false} RemoveFirstAbsent(reg: Registry, s: SocketId)
    requires forall i | 0 <= i < |reg| :: reg[i].1 != s
    ensures RemoveFirst(reg, s) == reg
  {
    if reg != [] {
      RemoveFirstAbsent(reg[1..], s);
    }
  }

  /**
   * Removing by socket deletes exactly the first entry with that socket;
   * what precedes it and what follows it are untouched.
   */
  lemma {:induction false} RemoveFirstAt(reg: Registry, s: SocketId, k: nat)
    requires k < |reg| && reg[k].1 == s
    requires forall i | 0 <= i < k :: reg[i].1 != s
    ensures RemoveFirst(reg, s) == reg[..k] + reg[k + 1..]
  {
    if k > 0 {
      var tail := reg[1..];
      RemoveFirstAt(tail, s, k - 1);
      assert reg[..k] == [reg[0]] + tail[..k - 1];
      assert reg[k + 1..] == tail[k..];
    }
  }

  /** The dictionary the registry stands for. */
  function AsMap(reg: Registry): (m: map<Text, SocketId>)
    requires UniqueKeys(reg)
    ensures forall u :: u in m <==> Lookup(reg, u).Some?
    ensures forall u | u in m :: m[u] == Lookup(reg, u).value
  {
    if reg == [] then map[]
    else AsMap(reg[1..])[reg[0].0 := reg[0].1]
  }

  // ---------------------------------------------------------------------
  // Credentials
  // ---------------------------------------------------------------------

  /** verify_login against a users table and a digest function. */
  function VerifyLogin(users: map<Text, Text>, hash: Text -> Text, u: Text, password: Text): (r: (bool, Text))
    ensures r.0 <==> u in users && users[u] == hash(password)
    ensures u !in users ==> r.1 == NO_SUCH_USER
    ensures u in users && users[u] != hash(password) ==> r.1 == BAD_PASSWORD
    ensures r.0 ==> r.1 == LOGIN_OK
  {
    if u !in users then (false, NO_SUCH_USER)
    else if hash(password) == users[u] then (true, LOGIN_OK)
    else (false, BAD_PASSWORD)
  }

  /** The unread mail addressed to u. */
  function UnreadCount(mail: seq<Mail>, u: Text): (n: nat)
    ensures n <= |mail|
    ensures n == |mail| ==> forall i | 0 <= i < |mail| :: mail[i].recipient == u && !mail[i].read
  {
    if mail == [] then 0
    else (if mail[0].recipient == u && !mail[0].read then 1 else 0) + UnreadCount(mail[1..], u)
  }

  class AuthManager {
    /** The users table: username to password digest. */
    var users: map<Text, Text>
    /** The messages table, as far as login reads it. */
    var mail: seq<Mail>
    /** active_connections, in insertion order. */
    var active: Registry
    /** The password digest function. */
    const hash: Text -> Text

    predicate Valid()
      reads this
    {
      UniqueKeys(active)
    }

    constructor(users: map<Text, Text>, mail: seq<Mail>, hash: Text -> Text)
      ensures Valid()
      ensures this.users == users && this.mail == mail && this.hash == hash && active == []
    {
      this.users := users;
      this.mail := mail;
      this.hash := hash;
      active := [];
    }

    /**
     * create_account: an empty name or a taken name is refused with an
     * error and changes nothing; otherwise the account is inserted.
     */
    method CreateAccount(u: Text, password: Text) returns (r: BaseResponse)
      modifies this
      ensures mail == old(mail) && active == old(active)
      ensures u == [] ==> r == BaseResponse(Error, USERNAME_EMPTY) && users == old(users)
      ensures u != [] && u in old(users) ==> r == BaseResponse(Error, USERNAME_EXISTS) && users == old(users)
      ensures u != [] && u !in old(users) ==>
        r == BaseResponse(Success, ACCOUNT_CREATED) && users == old(users)[u := hash(password)]
    {
      if u == [] {
        return BaseResponse(Error, USERNAME_EMPTY);
      }
      if u in users {
        return BaseResponse(Error, USERNAME_EXISTS);
      }
      users := users[u := hash(password)];
      r := BaseResponse(Success, ACCOUNT_CREATED);
    }

    /**
     * login: a failed check answers the check's message with no unread
     * count and leaves the registry alone; a successful one registers the
     * socket under the name, replacing an earlier socket in place.
     */
    method Login(u: Text, password: Text, sock: SocketId) returns (r: LoginResponse)
      requires Valid()
      modifies this
      ensures Valid()
      ensures users == old(users) && mail == old(mail)
      ensures var (ok, msg) := VerifyLogin(old(users), hash, u, password);
        && (!ok ==> r == LoginResponse(Error, msg, 0) && active == old(active))
        && (ok ==> r == LoginResponse(Success, LOGIN_OK, UnreadCount(mail, u))
                   && active == Assign(old(active), u, sock))
    {
      var (ok, msg) := VerifyLogin(users, hash, u, password);
      if !ok {
        return LoginResponse(Error, msg, 0);
      }
      var unread := UnreadCount(mail, u);
      AssignUnique(active, u, sock);
      active := Assign(active, u, sock);
      r := LoginResponse(Success, LOGIN_OK, unread);
    }

    /**
     * delete_account: an unknown name is refused and changes nothing;
     * otherwise the account goes and so does its registry entry.
     */
    method DeleteAccount(u: Text) returns (r: BaseResponse)
      requires Valid()
      modifies this
      ensures Valid()
      ensures mail == old(mail)
      ensures u !in old(users) ==>
        r == BaseResponse(Error, ACCOUNT_NOT_FOUND) && users == old(users) && active == old(active)
      ensures u in old(users) ==>
        && r == BaseResponse(Success, ACCOUNT_DELETED_OK)
        && users == old(users) - {u} && active == Pop(old(active), u)
    {
      if u !in users {
        return BaseResponse(Error, ACCOUNT_NOT_FOUND);
      }
      users := users - {u};
      PopProperties(active, u);
      active := Pop(active, u);
      r := BaseResponse(Success, ACCOUNT_DELETED_OK);
    }

    /** get_active_connections: the registry as a dictionary. */
    function ActiveConnections(): (m: map<Text, SocketId>)
      requires Valid()
      reads this
      ensures forall i | 0 <= i < |active| :: active[i].0 in m && m[active[i].0] == active[i].1
      ensures forall u | u in m :: exists i | 0 <= i < |active| :: active[i] == (u, m[u])
    {
      AsMap(active)
    }

    /** remove_connection: scan the entries in order and delete the first one holding the socket. */
    method RemoveConnection(sock: SocketId)
      requires Valid()
      modifies this
      ensures Valid()
      ensures users == old(users) && mail == old(mail)
      ensures active == RemoveFirst(old(active), sock)
    {
      var i := 0;
      while i < |active|
        invariant active == old(active)
        invariant 0 <= i <= |active|
        invariant forall k | 0 <= k < i :: active[k].1 != sock
      {
        if active[i].1 == sock {
          RemoveFirstAt(active, sock, i);
          active := active[..i] + active[i + 1..];
          return;
        }
        i := i + 1;
      }
      RemoveFirstAbsent(active, sock);
    }
  }
}
