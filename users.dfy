/** The `User` collection the routes read and write, as the sequence of
    its documents in natural (insertion) order, and the queries the routes
    send to it. `find()` is the whole sequence; `findOne({ login })`,
    `findById(id)` and `findByIdAndDelete(id)` are defined here. `save()`
    is an append on the store in the routes module. */
module Users {

  import opened Wrappers
  import Crypto

  /** A document's `_id`; the store draws them from a counter. */
  type UserId = nat

  /** A stored document: `_id`, `login` and the bcrypt hash kept in its
      `password` field. */
  datatype User = User(id: UserId, login: string, passwordHash: Crypto.PasswordHash)

  /** What the routes send back about a user: `{ id, login }`, no hash. */
  datatype PublicUser = PublicUser(id: UserId, login: string)

  /** Position of the first document that `matches`, or `|records|`:
      the scan behind every query the routes send. */
  function IndexWhere(records: seq<User>, matches: User -> bool): (k: nat)
    ensures k <= |records|
    ensures k < |records| ==> matches(records[k])
    ensures forall j :: 0 <= j < k ==> !matches(records[j])
  {
    if records == [] then 0
    else if matches(records[0]) then 0
    else 1 + IndexWhere(records[1..], matches)
  }

  function IndexOfLogin(records: seq<User>, login: string): nat
  {
    IndexWhere(records, (u: User) => u.login == login)
  }

  function IndexOfId(records: seq<User>, id: UserId): nat
  {
    IndexWhere(records, (u: User) => u.id == id)
  }

  /** `User.findOne({ login })`: the first document with this login. */
  function FindByLogin(records: seq<User>, login: string): (r: Option<User>)
    ensures r.Some? ==> r.value in records && r.value.login == login
    ensures r.None? <==> forall u :: u in records ==> u.login != login
  {
    var k := IndexOfLogin(records, login);
    if k < |records| then Some(records[k]) else None
  }

  /** `User.findById(id)`: the document with this id, `null` if none. */
  function FindById(records: seq<User>, id: UserId): (r: Option<User>)
    ensures r.Some? ==> r.value in records && r.value.id == id
    ensures r.None? <==> forall u :: u in records ==> u.id != id
  {
    var k := IndexOfId(records, id);
    if k < |records| then Some(records[k]) else None
  }

  /** The collection after `User.findByIdAndDelete(id)`: the document
      `findById` finds is gone, every other one is still there, in the
      same order. */
  function DeleteById(records: seq<User>, id: UserId): (r: seq<User>)
    ensures FindById(records, id).None? ==> r == records
    ensures FindById(records, id).Some? ==>
      multiset(r) + multiset{FindById(records, id).value} == multiset(records)
    ensures forall u :: u in r ==> u in records
    ensures forall u :: u in records && u.id != id ==> u in r
  {
    var k := IndexOfId(records, id);
    if k < |records| then
      assert records == records[..k] + [records[k]] + records[k + 1..];
      assert multiset(records) == multiset(records[..k]) + multiset{records[k]} + multiset(records[k + 1..]);
      records[..k] + records[k + 1..]
    else records
  }

  ghost predicate UniqueIds(records: seq<User>)
  {
    forall i, j :: 0 <= i < j < |records| ==> records[i].id != records[j].id
  }

  ghost predicate UniqueLogins(records: seq<User>)
  {
    forall i, j :: 0 <= i < j < |records| ==> records[i].login != records[j].login
  }

  /** The collection's invariant: ids and logins are unique, and every id
      was drawn before the counter reached `nextId`. */
  ghost predicate ValidRecords(records: seq<User>, nextId: UserId)
  {
    && UniqueIds(records)
    && UniqueLogins(records)
    && forall u :: u in records ==> u.id < nextId
  }

  /** With unique logins, the document `findOne` returns is the only one
      with that login. */
  lemma FindByLoginUnique(records: seq<User>, u: User)
    requires UniqueLogins(records)
    requires u in records
    ensures FindByLogin(records, u.login) == Some(u)
  {
    var i :| 0 <= i < |records| && records[i] == u;
    var k := IndexOfLogin(records, u.login);
    assert k <= i;
  }

  /** A document appended under a login nobody holds is what `findOne`
      returns for that login. */
  lemma FindByLoginAppend(records: seq<User>, u: User)
    requires forall v :: v in records ==> v.login != u.login
    ensures FindByLogin(records + [u], u.login) == Some(u)
  {
    var all := records + [u];
    var k := IndexOfLogin(all, u.login);
    assert all[|records|] == u;
  }

  /** With unique ids, deleting by id leaves no document with that id. */
  lemma DeleteByIdRemovesId(records: seq<User>, id: UserId)
    requires UniqueIds(records)
    ensures forall u :: u in DeleteById(records, id) ==> u.id != id
    ensures FindById(DeleteById(records, id), id) == None
  {
    var k := IndexOfId(records, id);
    var r := DeleteById(records, id);
    if k < |records| {
      assert records[k].id == id;
      assert r == records[..k] + records[k + 1..];
      forall j | 0 <= j < |r| ensures r[j].id != id {
        var j' := if j < k then j else j + 1;
        assert r[j] == records[j'];
      }
    }
    assert forall u :: u in r ==> u.id != id;
  }

  /** Deleting a document keeps the collection's invariant. */
  lemma DeleteByIdKeepsValid(records: seq<User>, nextId: UserId, id: UserId)
    requires ValidRecords(records, nextId)
    ensures ValidRecords(DeleteById(records, id), nextId)
  {
    var k := IndexOfId(records, id);
    if k < |records| {
      var r := DeleteById(records, id);
      assert r == records[..k] + records[k + 1..];
      forall i, j | 0 <= i < j < |r|
        ensures r[i].id != r[j].id && r[i].login != r[j].login
      {
        var i' := if i < k then i else i + 1;
        var j' := if j < k then j else j + 1;
        assert r[i] == records[i'] && r[j] == records[j'];
      }
    }
  }

  /** Appending a document with a fresh id and an unused login keeps the
      collection's invariant, with the counter moved past the new id. */
  lemma AppendKeepsValid(records: seq<User>, nextId: UserId, u: User)
    requires ValidRecords(records, nextId)
    requires u.id == nextId
    requires forall v :: v in records ==> v.login != u.login
    ensures ValidRecords(records + [u], nextId + 1)
  {
    var r := records + [u];
    forall i, j | 0 <= i < j < |r|
      ensures r[i].id != r[j].id && r[i].login != r[j].login
    {
      assert r[i] == records[i] && r[i] in records;
      if j < |records| {
        assert r[j] == records[j];
      }
    }
  }
}
