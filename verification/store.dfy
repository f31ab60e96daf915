/**
 * The `users` collection the controller reads with `find_one` and writes with
 * `insert_one` (app/controllers/api/auth_controller.py:42-50, 69).
 *
 * The collection is a sequence of documents in insertion order. Nothing in the
 * store itself forbids two documents with the same email; `find_one` returns
 * the first document whose email is equal to the one asked for.
 */
module UserStore {
  import opened Wrappers

  /** A user document: `{name, email, password, role}`, where `password` holds the hash. */
  datatype User = User(name: string, email: string, password: string, role: string)

  /** `find_one({"email": email})`: the first document with that email, if any. */
  function FindOne(users: seq<User>, email: string): (r: Option<User>)
    ensures r.None? <==> forall i | 0 <= i < |users| :: users[i].email != email
    ensures r.Some? ==>
      r.value.email == email &&
      exists i | 0 <= i < |users| :: users[i] == r.value && (forall j | 0 <= j < i :: users[j].email != email)
  {
    if |users| == 0 then None
    else if users[0].email == email then Some(users[0])
    else
      var r := FindOne(users[1..], email);
      assert forall i | 1 <= i < |users| :: users[i] == users[1..][i - 1];
      r
  }

  /** No two documents share an email. */
  predicate UniqueEmails(users: seq<User>)
  {
    forall i, j | 0 <= i < j < |users| :: users[i].email != users[j].email
  }

  /** Appending a document whose email is absent: the lookup then finds exactly that document. */
  lemma FindOneAfterAppend(users: seq<User>, u: User)
    requires FindOne(users, u.email).None?
    ensures FindOne(users + [u], u.email) == Some(u)
    ensures forall e | e != u.email :: FindOne(users + [u], e) == FindOne(users, e)
  {
    var all := users + [u];
    assert all[|users|] == u;
    var r := FindOne(all, u.email);
    assert r.Some?;
    var i :| 0 <= i < |all| && all[i] == r.value && (forall j | 0 <= j < i :: all[j].email != u.email);
    assert i == |users|;
    forall e | e != u.email ensures FindOne(all, e) == FindOne(users, e) {
      FindOneUnchanged(users, u, e);
    }
  }

  lemma {:induction false} FindOneUnchanged(users: seq<User>, u: User, e: string)
    requires u.email != e
    ensures FindOne(users + [u], e) == FindOne(users, e)
  {
    if |users| > 0 && users[0].email != e {
      assert (users + [u])[1..] == users[1..] + [u];
      FindOneUnchanged(users[1..], u, e);
    }
  }

  /** Appending a document whose email is new keeps the emails unique. */
  lemma AppendKeepsUnique(users: seq<User>, u: User)
    requires UniqueEmails(users) && FindOne(users, u.email).None?
    ensures UniqueEmails(users + [u])
  {
  }

  /** The collection as it is held by the database, changed in place by `insert_one`. */
  class Users {
    var docs: seq<User>

    constructor ()
      ensures docs == []
    {
      docs := [];
    }

    /** `insert_one(doc)`: adds the document at the end and changes nothing else. */
    method InsertOne(u: User)
      modifies this
      ensures docs == old(docs) + [u]
    {
      docs := docs + [u];
    }
  }
}
