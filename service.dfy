/** The user-management service: validation and business rules over the user
    table. Each operation is given twice: as a pure function from the table
    before to its result and the table after (the specification, about which
    the properties below are proved), and as a method of the stateful
    UserService class, whose fields are the table, proved to agree with it. */
module Service {
  import opened Wrappers
  import opened Dates
  import opened UserModel
  import opened UserRepository

  /** One failure kind per exception class of the service. */
  datatype Error =
    | UserNotFound
    | InvalidDateFormat
    | InvalidDateRange
    | MinimumAge
    | UserAlreadyExists

  datatype Result<+T> = Ok(value: T) | Err(error: Error)

  /** What an operation returns, with the table as it leaves it. */
  datatype Outcome<+T> = Outcome(result: Result<T>, table: Table)

  // ---------------------------------------------------------------------------
  // Minimum age

  /** The inclusive minimum-age check: the date of birth is on or before the
      day minimumAge years before now. For a real birth day it accepts exactly
      the users who are at least minimumAge whole years old today; in
      particular one whose birthday is today, exactly minimumAge years ago,
      is accepted. */
  predicate IsUserAboveMinimumAge(u: User, now: Date, minimumAge: nat)
    requires u.dateOfBirth.Some? && IsValid(now)
    ensures IsValid(u.dateOfBirth.value) ==>
      (IsUserAboveMinimumAge(u, now, minimumAge) <==> AgeInYears(u.dateOfBirth.value, now) >= minimumAge)
  {
    OnOrBefore(u.dateOfBirth.value, YearsBefore(now, minimumAge))
  }

  /** The boundary: the cutoff day itself passes and the day after it fails. */
  lemma AgeCheckBoundary(u: User, now: Date, minimumAge: nat)
    requires u.dateOfBirth.Some? && IsValid(now)
    ensures u.dateOfBirth.value == YearsBefore(now, minimumAge) ==> IsUserAboveMinimumAge(u, now, minimumAge)
    ensures Before(YearsBefore(now, minimumAge), u.dateOfBirth.value) ==> !IsUserAboveMinimumAge(u, now, minimumAge)
  {
  }

  // ---------------------------------------------------------------------------
  // The operations as functions of the table

  /** getAllUsers: every stored record, one per id. */
  function AllUsersOutcome(t: Table): (r: set<User>)
    requires t.Valid()
    ensures |r| == |t.users|
    ensures forall id :: id in t.users ==> t.users[id] in r
    ensures forall u :: u in r ==> u.id.Some? && u.id.value in t.users && t.users[u.id.value] == u
  {
    AllUsersOnePerRecord(t);
    AllUsers(t)
  }

  /** getUserById: the stored record itself, or UserNotFound. */
  function LookupById(t: Table, id: int): (r: Result<User>)
    requires t.Valid()
    ensures r.Ok? <==> id in t.users
    ensures r.Ok? ==> r.value == t.users[id] && r.value.id == Some(id)
    ensures r.Err? ==> r.error == UserNotFound
  {
    if id in t.users then Ok(t.users[id]) else Err(UserNotFound)
  }

  /** createUser: three checks in a fixed order, the first failure deciding
      the error; then the candidate is stored under a fresh id. */
  function CreateOutcome(t: Table, u: User, now: Date, minimumAge: nat, dobTextParses: Date -> bool): (o: Outcome<User>)
    requires t.Valid() && IsNewUser(u) && IsValid(now)
    ensures o.table.Valid()
    ensures o.result.Err? ==> o.table == t
    ensures o.result.Err? ==> o.result.error in {InvalidDateFormat, MinimumAge, UserAlreadyExists}
    ensures o.result == Err(InvalidDateFormat) <==> !dobTextParses(u.dateOfBirth.value)
    ensures o.result == Err(MinimumAge)
        <==> dobTextParses(u.dateOfBirth.value) && !IsUserAboveMinimumAge(u, now, minimumAge)
    ensures o.result == Err(UserAlreadyExists)
        <==> dobTextParses(u.dateOfBirth.value) && IsUserAboveMinimumAge(u, now, minimumAge) && EmailTaken(t, u.email)
    ensures o.result.Ok? ==>
      && t.nextId !in t.users
      && o.result.value == u.(id := Some(t.nextId))
      && o.table.users == t.users[t.nextId := o.result.value]
      && t.nextId < o.table.nextId
  {
    if !dobTextParses(u.dateOfBirth.value) then Outcome(Err(InvalidDateFormat), t)
    else if !IsUserAboveMinimumAge(u, now, minimumAge) then Outcome(Err(MinimumAge), t)
    else if EmailTaken(t, u.email) then Outcome(Err(UserAlreadyExists), t)
    else
      var saved := u.(id := Some(t.nextId));
      var after := Table(t.users[t.nextId := saved], t.nextId + 1);
      assert EmailsUnique(after.users) by {
        forall a, b | a in after.users && b in after.users && after.users[a].email == after.users[b].email
          ensures a == b
        {
          if a != t.nextId && b != t.nextId {
            assert t.users[a].email == t.users[b].email;
          }
        }
      }
      Outcome(Ok(saved), after)
  }

  /** updateUserWithNullChecks: every present field of the patch replaces the
      stored one; an absent (null) field leaves it as it was; the id is kept. */
  function Overlay(patch: User, existing: User): (m: User)
    ensures m.id == existing.id
    ensures HasRequiredFields(existing) && (patch.dateOfBirth.Some? ==> IsValid(patch.dateOfBirth.value))
      ==> HasRequiredFields(m)
  {
    User(
      existing.id,
      if patch.firstName.Some? then patch.firstName else existing.firstName,
      if patch.lastName.Some? then patch.lastName else existing.lastName,
      if patch.email.Some? then patch.email else existing.email,
      if patch.dateOfBirth.Some? then patch.dateOfBirth else existing.dateOfBirth,
      if patch.address.Some? then patch.address else existing.address,
      if patch.phoneNumber.Some? then patch.phoneNumber else existing.phoneNumber)
  }

  /** updateUser: the id must exist; the patch's date of birth must pass the
      age check; its email must not belong to a record unless it is the one
      the updated record already has; then the overlay is stored under the
      same id. */
  function UpdateOutcome(t: Table, id: int, patch: User, now: Date, minimumAge: nat): (o: Outcome<User>)
    requires t.Valid() && patch.dateOfBirth.Some? && IsValid(patch.dateOfBirth.value) && IsValid(now)
    ensures o.table.Valid()
    ensures o.result.Err? ==> o.table == t
    ensures o.result.Err? ==> o.result.error in {UserNotFound, MinimumAge, UserAlreadyExists}
    ensures o.result == Err(UserNotFound) <==> id !in t.users
    ensures o.result == Err(MinimumAge) <==> id in t.users && !IsUserAboveMinimumAge(patch, now, minimumAge)
    ensures o.result == Err(UserAlreadyExists)
        <==> id in t.users && IsUserAboveMinimumAge(patch, now, minimumAge)
             && EmailTaken(t, patch.email) && patch.email != t.users[id].email
    ensures o.result.Ok? ==>
      && id in t.users
      && o.result.value == Overlay(patch, t.users[id])
      && o.result.value.id == Some(id)
      && o.table == t.(users := t.users[id := o.result.value])
  {
    if id !in t.users then Outcome(Err(UserNotFound), t)
    else
      var existing := t.users[id];
      if !IsUserAboveMinimumAge(patch, now, minimumAge) then Outcome(Err(MinimumAge), t)
      else if EmailTaken(t, patch.email) && patch.email != existing.email then Outcome(Err(UserAlreadyExists), t)
      else
        var merged := Overlay(patch, existing);
        var after := t.(users := t.users[id := merged]);
        assert EmailsUnique(after.users) by {
          forall a, b | a in after.users && b in after.users && after.users[a].email == after.users[b].email
            ensures a == b
          {
            if a != id && b != id {
              assert t.users[a].email == t.users[b].email;
            }
          }
        }
        Outcome(Ok(merged), after)
  }

  /** deleteUser: the id must exist; then exactly that record is removed. */
  function DeleteOutcome(t: Table, id: int): (o: Outcome<()>)
    requires t.Valid()
    ensures o.table.Valid()
    ensures o.result.Err? <==> id !in t.users
    ensures o.result.Err? ==> o.result.error == UserNotFound && o.table == t
    ensures o.result.Ok? ==> o.table.users.Keys == t.users.Keys - {id} && o.table.nextId == t.nextId
    ensures o.result.Ok? ==> forall k :: k in o.table.users ==> o.table.users[k] == t.users[k]
  {
    if id !in t.users then Outcome(Err(UserNotFound), t)
    else Outcome(Ok(()), t.(users := t.users - {id}))
  }

  /** getUserByBirthdayRange: both bounds must be yyyy-MM-dd dates, the lower
      not after the upper; the answer is every record born within the
      bounds, both included. */
  function BirthdayRangeOutcome(t: Table, from: string, to: string): (r: Result<set<User>>)
    requires t.Valid()
    ensures r.Err? ==> r.error in {InvalidDateFormat, InvalidDateRange}
    ensures r == Err(InvalidDateFormat) <==> Parse(from).None? || Parse(to).None?
    ensures r == Err(InvalidDateRange)
        <==> Parse(from).Some? && Parse(to).Some? && Before(Parse(to).value, Parse(from).value)
    ensures r.Ok? ==>
      && Parse(from).Some? && Parse(to).Some?
      && OnOrBefore(Parse(from).value, Parse(to).value)
      && forall u :: u in r.value <==>
           u in AllUsers(t)
           && OnOrBefore(Parse(from).value, u.dateOfBirth.value)
           && OnOrBefore(u.dateOfBirth.value, Parse(to).value)
  {
    var fromDate := Parse(from);
    var toDate := Parse(to);
    if fromDate.None? || toDate.None? then Err(InvalidDateFormat)
    else if Before(toDate.value, fromDate.value) then Err(InvalidDateRange)
    else
      OrderIsTotal(fromDate.value, toDate.value);
      Ok(FindUsersByBirthdayRange(t, fromDate.value, toDate.value))
  }

  // ---------------------------------------------------------------------------
  // The stateful service

  /** The service object: the user table held in two fields that the
      operations update in place, the configured minimum age, and the check
      the source applies to the textual form of a date of birth before
      creating a user (modelled as an arbitrary predicate, so that both of its
      outcomes are covered). */
  class UserService {
    var users: map<int, User>
    var nextId: int
    const minimumAge: nat
    const dobTextParses: Date -> bool

    function Snapshot(): Table
      reads this
    {
      Table(users, nextId)
    }

    ghost predicate Valid()
      reads this
    {
      Snapshot().Valid()
    }

    constructor (minimumAge: nat, dobTextParses: Date -> bool)
      ensures Valid() && Snapshot() == Empty()
      ensures this.minimumAge == minimumAge && this.dobTextParses == dobTextParses
    {
      users := map[];
      nextId := 1;
      this.minimumAge := minimumAge;
      this.dobTextParses := dobTextParses;
    }

    method GetAllUsers() returns (r: set<User>)
      requires Valid()
      ensures r == AllUsersOutcome(Snapshot())
    {
      r := set id | id in users :: users[id];
    }

    method GetUserById(id: int) returns (r: Result<User>)
      requires Valid()
      ensures r == LookupById(Snapshot(), id)
    {
      if id in users {
        r := Ok(users[id]);
      } else {
        r := Err(UserNotFound);
      }
    }

    method CreateUser(candidate: User, now: Date) returns (r: Result<User>)
      requires Valid() && IsNewUser(candidate) && IsValid(now)
      modifies this
      ensures Valid()
      ensures Outcome(r, Snapshot()) == CreateOutcome(old(Snapshot()), candidate, now, minimumAge, dobTextParses)
    {
      if !dobTextParses(candidate.dateOfBirth.value) {
        return Err(InvalidDateFormat);
      }
      if !IsUserAboveMinimumAge(candidate, now, minimumAge) {
        return Err(MinimumAge);
      }
      if EmailTaken(Snapshot(), candidate.email) {
        return Err(UserAlreadyExists);
      }
      var saved := candidate.(id := Some(nextId));
      users := users[nextId := saved];
      nextId := nextId + 1;
      r := Ok(saved);
    }

    method DeleteUser(id: int) returns (r: Result<()>)
      requires Valid()
      modifies this
      ensures Valid()
      ensures Outcome(r, Snapshot()) == DeleteOutcome(old(Snapshot()), id)
    {
      if id !in users {
        return Err(UserNotFound);
      }
      users := users - {id};
      r := Ok(());
    }

    method UpdateUser(id: int, patch: User, now: Date) returns (r: Result<User>)
      requires Valid() && patch.dateOfBirth.Some? && IsValid(patch.dateOfBirth.value) && IsValid(now)
      modifies this
      ensures Valid()
      ensures Outcome(r, Snapshot()) == UpdateOutcome(old(Snapshot()), id, patch, now, minimumAge)
    {
      if id !in users {
        return Err(UserNotFound);
      }
      var existing := users[id];
      if !IsUserAboveMinimumAge(patch, now, minimumAge) {
        return Err(MinimumAge);
      }
      if EmailTaken(Snapshot(), patch.email) && patch.email != existing.email {
        return Err(UserAlreadyExists);
      }
      var merged := UpdateUserWithNullChecks(patch, existing);
      users := users[id := merged];
      r := Ok(merged);
    }

    /** The stored record is changed one setter at a time, each only when the
        patch has that field. */
    static method UpdateUserWithNullChecks(patch: User, existing: User) returns (merged: User)
      ensures merged == Overlay(patch, existing)
    {
      merged := existing;
      if patch.firstName.Some? {
        merged := merged.(firstName := patch.firstName);
      }
      if patch.lastName.Some? {
        merged := merged.(lastName := patch.lastName);
      }
      if patch.dateOfBirth.Some? {
        merged := merged.(dateOfBirth := patch.dateOfBirth);
      }
      if patch.email.Some? {
        merged := merged.(email := patch.email);
      }
      if patch.address.Some? {
        merged := merged.(address := patch.address);
      }
      if patch.phoneNumber.Some? {
        merged := merged.(phoneNumber := patch.phoneNumber);
      }
    }

    method GetUserByBirthdayRange(from: string, to: string) returns (r: Result<set<User>>)
      requires Valid()
      ensures r == BirthdayRangeOutcome(Snapshot(), from, to)
    {
      var fromDate := Parse(from);
      var toDate := Parse(to);
      if fromDate.None? || toDate.None? {
        return Err(InvalidDateFormat);
      }
      if Before(toDate.value, fromDate.value) {
        return Err(InvalidDateRange);
      }
      r := Ok(FindUsersByBirthdayRange(Snapshot(), fromDate.value, toDate.value));
    }
  }
}
