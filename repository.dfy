/** The user table as a value: the stored records keyed by id, and the next
    id the store will hand out. The queries here are the ones the service
    issues: lookup by id, lookup by email, all records, and the inclusive
    date-of-birth range. */
module UserRepository {
  import opened Wrappers
  import opened Dates
  import opened UserModel

  datatype Table = Table(users: map<int, User>, nextId: int) {

    /** The store's invariant: every record sits under its own id, ids are
        positive and below the counter (so a fresh id is never in use and a
        deleted one is never handed out again), the required fields are
        present, and no two records share an email. */
    predicate Valid()
      ensures Valid() ==> nextId !in users
    {
      0 < nextId
      && (forall id :: id in users ==> 0 < id < nextId && users[id].id == Some(id))
      && (forall id :: id in users ==> HasRequiredFields(users[id]))
      && EmailsUnique(users)
    }
  }

  predicate EmailsUnique(users: map<int, User>) {
    forall a, b :: a in users && b in users && users[a].email == users[b].email ==> a == b
  }

  function Empty(): (t: Table)
    ensures t.Valid() && t.users == map[]
  {
    Table(map[], 1)
  }

  /** The lookup by email finds a record: some record in the listing of all
      users has this email. */
  predicate EmailTaken(t: Table, email: Option<string>)
    ensures EmailTaken(t, email) <==> exists u :: u in AllUsers(t) && u.email == email
  {
    exists id :: id in t.users && t.users[id].email == email
  }

  /** All stored records. The source returns them as a list in no particular
      order; distinct ids make the records distinct, so a set loses nothing. */
  function AllUsers(t: Table): (r: set<User>)
    ensures forall u :: u in r <==> exists id :: id in t.users && t.users[id] == u
  {
    set id | id in t.users :: t.users[id]
  }

  /** Records are in one-to-one correspondence with ids: the list of all users
      has one entry per stored record. */
  lemma {:induction false} AllUsersOnePerRecord(t: Table)
    requires t.Valid()
    ensures |AllUsers(t)| == |t.users|
  {
    RecordsOneToOne(t.users);
  }

  lemma {:induction false} RecordsOneToOne(users: map<int, User>)
    requires forall id :: id in users ==> users[id].id == Some(id)
    ensures |set id | id in users :: users[id]| == |users|
    decreases |users|
  {
    var ids := users.Keys;
    if forall id :: id !in ids {
      assert ids == {};
    } else {
      var k :| k in ids;
      var records := set id | id in users :: users[id];
      var rest := users - {k};
      var restRecords := set id | id in rest :: rest[id];
      RecordsOneToOne(rest);
      assert records == restRecords + {users[k]};
      assert users[k] !in restRecords;
      assert |rest| == |users| - 1 by {
        assert users.Keys == rest.Keys + {k};
      }
    }
  }

  /** The date-of-birth range query: records born within [from, to], both ends
      included (SQL BETWEEN). */
  function FindUsersByBirthdayRange(t: Table, from: Date, to: Date): (r: set<User>)
    requires t.Valid()
    ensures forall u :: u in r <==>
      u in AllUsers(t) && OnOrBefore(from, u.dateOfBirth.value) && OnOrBefore(u.dateOfBirth.value, to)
  {
    set id | id in t.users
      && OnOrBefore(from, t.users[id].dateOfBirth.value)
      && OnOrBefore(t.users[id].dateOfBirth.value, to)
      :: t.users[id]
  }
}
