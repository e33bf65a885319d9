/**
 * The message store as an object. Its fields are the two tables and the
 * id counter; every statement method replaces them by what the matching
 * function of `Tables` computes. The read-only queries are the functions
 * of `Tables`, applied to `Snapshot()`.
 */
module Store {
  import opened Octets
  import opened Wrappers
  import opened Schemas
  import T = Tables

  class Database {
    var accounts: seq<T.Account>
    var messages: map<nat, T.Record>
    var nextId: nat
    /** The password digest; a deterministic stand-in for the salted hash and its check. */
    const hash: Text -> Text

    /** The tables as a value. */
    function Snapshot(): (t: T.Snapshot)
      reads this
      ensures t.accounts == accounts && t.messages == messages && t.nextId == nextId
    {
      T.Snapshot(accounts, messages, nextId)
    }

    predicate Valid()
      reads this
    {
      T.Valid(Snapshot())
    }

    /** A store over freshly created, empty tables. */
    constructor(hash: Text -> Text)
      ensures Valid() && Snapshot() == T.Empty() && this.hash == hash
    {
      accounts := [];
      messages := map[];
      nextId := 1;
      this.hash := hash;
    }

    method Load(t: T.Snapshot)
      modifies this
      ensures Snapshot() == t
    {
      accounts, messages, nextId := t.accounts, t.messages, t.nextId;
    }

    /** create_user: false, and nothing changes, when the name is taken. */
    method CreateUser(u: Text, password: Text) returns (created: bool)
      requires Valid()
      modifies this
      ensures Valid()
      ensures (Snapshot(), created) == T.CreateUser(old(Snapshot()), u, hash(password))
    {
      var r := T.CreateUser(Snapshot(), u, hash(password));
      Load(r.0);
      created := r.1;
    }

    /** store_message: the new row's id, or None when the row has no recipient. */
    method StoreMessage(msg: ChatMessage) returns (id: Option<nat>)
      requires Valid()
      modifies this
      ensures Valid()
      ensures (Snapshot(), id) == T.StoreMessage(old(Snapshot()), msg)
    {
      var r := T.StoreMessage(Snapshot(), msg);
      Load(r.0);
      id := r.1;
    }

    /** mark_delivered */
    method MarkDelivered(id: int)
      requires Valid()
      modifies this
      ensures Valid()
      ensures Snapshot() == T.MarkDelivered(old(Snapshot()), id)
    {
      Load(T.MarkDelivered(Snapshot(), id));
    }

    /** mark_read */
    method MarkRead(ids: seq<int>, u: Text)
      requires Valid()
      modifies this
      ensures Valid()
      ensures Snapshot() == T.MarkRead(old(Snapshot()), ids, u)
    {
      Load(T.MarkRead(Snapshot(), ids, u));
    }

    /** mark_read_from_user */
    method MarkReadFromUser(r: Text, s: Text)
      requires Valid()
      modifies this
      ensures Valid()
      ensures Snapshot() == T.MarkReadFromUser(old(Snapshot()), r, s)
    {
      Load(T.MarkReadFromUser(Snapshot(), r, s));
    }

    /** delete_messages: the number of rows deleted, and their (recipient, was unread) pairs. */
    method DeleteMessages(ids: seq<int>, u: Text, r: Text) returns (count: nat, info: seq<(Text, bool)>)
      requires Valid()
      modifies this
      ensures Valid()
      ensures (Snapshot(), count, info) == T.DeleteMessages(old(Snapshot()), ids, u, r)
    {
      var res := T.DeleteMessages(Snapshot(), ids, u, r);
      Load(res.0);
      count, info := res.1, res.2;
    }

    /** delete_user: whether an account row was deleted. */
    method DeleteUser(u: Text) returns (deleted: bool)
      requires Valid()
      modifies this
      ensures Valid()
      ensures (Snapshot(), deleted) == T.DeleteUser(old(Snapshot()), u)
    {
      var r := T.DeleteUser(Snapshot(), u);
      Load(r.0);
      deleted := r.1;
    }
  }
}
