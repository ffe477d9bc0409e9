/** Properties of the service that relate several operations, or an operation
    and the record-level rules, proved over the functional specification in
    module Service. */
module ServiceProperties {
  import opened Wrappers
  import opened Dates
  import opened UserModel
  import opened UserRepository
  import opened Service

  // ---------------------------------------------------------------------------
  // Create, get, delete

  /** A created user reads back by its new id exactly as stored, and differs
      from the submitted record only in the id. */
  lemma CreateThenGetById(t: Table, u: User, now: Date, minimumAge: nat, dobTextParses: Date -> bool)
    requires t.Valid() && IsNewUser(u) && IsValid(now)
    ensures var o := CreateOutcome(t, u, now, minimumAge, dobTextParses);
      o.result.Ok? ==>
        && o.result.value.id.Some?
        && LookupById(o.table, o.result.value.id.value) == Ok(o.result.value)
        && o.result.value.(id := None) == u
  {
  }

  /** Getting all users after a successful create lists one more record. */
  lemma CreateAddsOneRecord(t: Table, u: User, now: Date, minimumAge: nat, dobTextParses: Date -> bool)
    requires t.Valid() && IsNewUser(u) && IsValid(now)
    ensures var o := CreateOutcome(t, u, now, minimumAge, dobTextParses);
      o.result.Ok? ==> |AllUsersOutcome(o.table)| == |AllUsersOutcome(t)| + 1
  {
  }

  /** Creating two users with the same email one after the other: if the first
      succeeds the second never does, and once its date checks pass it fails
      with UserAlreadyExists. */
  lemma SecondCreateWithSameEmailFails(
    t: Table, first: User, second: User, now: Date, minimumAge: nat, dobTextParses: Date -> bool)
    requires t.Valid() && IsNewUser(first) && IsNewUser(second) && IsValid(now)
    requires first.email == second.email
    ensures var o1 := CreateOutcome(t, first, now, minimumAge, dobTextParses);
      o1.result.Ok? ==>
        var o2 := CreateOutcome(o1.table, second, now, minimumAge, dobTextParses);
        && o2.result.Err?
        && (dobTextParses(second.dateOfBirth.value) && IsUserAboveMinimumAge(second, now, minimumAge)
            ==> o2.result == Err(UserAlreadyExists))
  {
  }

  /** After a successful delete the id is gone: getting it fails. */
  lemma DeleteThenGetById(t: Table, id: int)
    requires t.Valid()
    ensures LookupById(DeleteOutcome(t, id).table, id) == Err(UserNotFound)
  {
  }

  /** A request to the service, with the current day where the operation
      reads it. */
  datatype Request =
    | CreateRequest(candidate: User, now: Date)
    | UpdateRequest(id: int, patch: User, now: Date)
    | DeleteRequest(id: int)

  /** The requests the operations accept: a new user with its required
      fields, a patch that carries a date of birth, and a real current day. */
  predicate WellFormed(r: Request) {
    match r
    case CreateRequest(candidate, now) => IsNewUser(candidate) && IsValid(now)
    case UpdateRequest(_, patch, now) =>
      patch.dateOfBirth.Some? && IsValid(patch.dateOfBirth.value) && IsValid(now)
    case DeleteRequest(_) => true
  }

  /** The table after serving the requests in order, each one succeeding or
      failing as its operation decides. The id counter never goes down. */
  function Serve(t: Table, rs: seq<Request>, minimumAge: nat, dobTextParses: Date -> bool): (after: Table)
    requires t.Valid() && forall i :: 0 <= i < |rs| ==> WellFormed(rs[i])
    ensures after.Valid() && t.nextId <= after.nextId
    decreases |rs|
  {
    if rs == [] then t
    else
      assert WellFormed(rs[0]);
      var next := match rs[0]
        case CreateRequest(candidate, now) => CreateOutcome(t, candidate, now, minimumAge, dobTextParses).table
        case UpdateRequest(id, patch, now) => UpdateOutcome(t, id, patch, now, minimumAge).table
        case DeleteRequest(id) => DeleteOutcome(t, id).table;
      Serve(next, rs[1..], minimumAge, dobTextParses)
  }

  /** An id freed by a delete is never handed out again: whatever requests
      are served after the delete, a create that follows them assigns
      another id. */
  lemma DeletedIdIsNotReused(
    t: Table, id: int, rs: seq<Request>, u: User, now: Date, minimumAge: nat, dobTextParses: Date -> bool)
    requires t.Valid() && IsNewUser(u) && IsValid(now)
    requires forall i :: 0 <= i < |rs| ==> WellFormed(rs[i])
    ensures var d := DeleteOutcome(t, id);
      var c := CreateOutcome(Serve(d.table, rs, minimumAge, dobTextParses), u, now, minimumAge, dobTextParses);
      d.result.Ok? && c.result.Ok? ==> c.result.value.id != Some(id)
  {
  }

  // ---------------------------------------------------------------------------
  // Update

  /** Re-submitting the email a user already has never conflicts, although a
      record with that email (the user itself) exists. */
  lemma UpdateOwnEmailNeverConflicts(t: Table, id: int, patch: User, now: Date, minimumAge: nat)
    requires t.Valid() && patch.dateOfBirth.Some? && IsValid(patch.dateOfBirth.value) && IsValid(now)
    requires id in t.users && patch.email == t.users[id].email
    ensures UpdateOutcome(t, id, patch, now, minimumAge).result != Err(UserAlreadyExists)
  {
  }

  /** An email conflict on update always names another stored record. */
  lemma UpdateConflictIsWithAnotherRecord(t: Table, id: int, patch: User, now: Date, minimumAge: nat)
    requires t.Valid() && patch.dateOfBirth.Some? && IsValid(patch.dateOfBirth.value) && IsValid(now)
    ensures UpdateOutcome(t, id, patch, now, minimumAge).result == Err(UserAlreadyExists) ==>
      exists other :: other in t.users && other != id && t.users[other].email == patch.email
  {
  }

  /** A successful update takes every field the patch carries and keeps
      every field it leaves out; the id, the set of ids and every other record
      stay as they were. */
  lemma UpdateTakesPresentFieldsKeepsTheRest(t: Table, id: int, patch: User, now: Date, minimumAge: nat)
    requires t.Valid() && patch.dateOfBirth.Some? && IsValid(patch.dateOfBirth.value) && IsValid(now)
    ensures var o := UpdateOutcome(t, id, patch, now, minimumAge);
      o.result.Ok? ==>
        var before := t.users[id];
        var m := o.table.users[id];
        && o.table.users.Keys == t.users.Keys
        && (forall k :: k in t.users && k != id ==> o.table.users[k] == t.users[k])
        && m.id == Some(id)
        && m.firstName == (if patch.firstName.Some? then patch.firstName else before.firstName)
        && m.lastName == (if patch.lastName.Some? then patch.lastName else before.lastName)
        && m.email == (if patch.email.Some? then patch.email else before.email)
        && m.dateOfBirth == patch.dateOfBirth
        && m.address == (if patch.address.Some? then patch.address else before.address)
        && m.phoneNumber == (if patch.phoneNumber.Some? then patch.phoneNumber else before.phoneNumber)
  {
  }

  /** Applying the same patch twice is the same as applying it once. */
  lemma OverlayIsIdempotent(patch: User, existing: User)
    ensures Overlay(patch, Overlay(patch, existing)) == Overlay(patch, existing)
  {
  }

  /** A patch with every field absent changes nothing. */
  lemma OverlayOfEmptyPatchIsIdentity(patch: User, existing: User)
    requires patch.firstName.None? && patch.lastName.None? && patch.email.None?
    requires patch.dateOfBirth.None? && patch.address.None? && patch.phoneNumber.None?
    ensures Overlay(patch, existing) == existing
  {
  }

  /** A patch that passes the record's field constraints yields a record that
      passes them too, whatever it is laid over. */
  lemma OverlayOfValidPatchIsValid(patch: User, existing: User, now: Date, isEmail: string -> bool)
    requires IsValidUser(patch, now, isEmail)
    ensures IsValidUser(Overlay(patch, existing), now, isEmail)
  {
  }

  /** Updating only the address (the patch repeating the stored date of birth,
      which the age check reads) changes exactly the address. */
  lemma UpdateAddressOnly(t: Table, id: int, address: string, now: Date, minimumAge: nat)
    requires t.Valid() && IsValid(now) && id in t.users
    ensures var existing := t.users[id];
      var patch := User(None, None, None, None, existing.dateOfBirth, Some(address), None);
      var o := UpdateOutcome(t, id, patch, now, minimumAge);
      && (o.result.Ok? <==> IsUserAboveMinimumAge(patch, now, minimumAge))
      && (o.result.Ok? ==> o.result.value == existing.(address := Some(address)))
  {
  }

  // ---------------------------------------------------------------------------
  // Birthday range

  /** A range whose two ends are the same day is allowed. */
  lemma SameDayRangeIsAllowed(t: Table, day: string)
    requires t.Valid() && Parse(day).Some?
    ensures BirthdayRangeOutcome(t, day, day).Ok?
  {
  }

  /** Every stored user (born, as every stored user is, on a real day) is found by the one-day range of that day. */
  lemma UserFoundOnOwnBirthday(t: Table, id: int)
    requires t.Valid() && id in t.users
    requires 1 <= t.users[id].dateOfBirth.value.year <= 9999
    ensures var day := Format(t.users[id].dateOfBirth.value);
      var r := BirthdayRangeOutcome(t, day, day);
      r.Ok? && t.users[id] in r.value
  {
    ParseFormatRoundTrip(t.users[id].dateOfBirth.value);
  }

  // ---------------------------------------------------------------------------
  // Worked examples

  lemma RangeWithFromAfterToIsRejected(t: Table)
    requires t.Valid()
    ensures BirthdayRangeOutcome(t, "2005-01-01", "2000-01-01") == Err(InvalidDateRange)
  {
    ParsesAsWritten("2005-01-01");
    ParsesAsWritten("2000-01-01");
  }

  lemma RangeWithMonthTwentyIsRejected(t: Table)
    requires t.Valid()
    ensures BirthdayRangeOutcome(t, "2000-20-20", "2000-01-01") == Err(InvalidDateFormat)
  {
    ParsesAsWritten("2000-20-20");
  }

  /** With minimum age 18 and today 2024-01-01, a user born 1990-01-01 (aged
      34) passes and one born 2010-01-01 (aged 14) does not. */
  lemma MinimumAgeExamples(u: User)
    requires u.dateOfBirth.Some?
    ensures u.dateOfBirth.value == Date(1990, 1, 1) ==> IsUserAboveMinimumAge(u, Date(2024, 1, 1), 18)
    ensures u.dateOfBirth.value == Date(2010, 1, 1) ==> !IsUserAboveMinimumAge(u, Date(2024, 1, 1), 18)
  {
  }

  // ---------------------------------------------------------------------------
  // The date-text check in create

  /** The check as written: the default text of the date of birth, parsed as
      yyyy-MM-dd. */
  predicate LegacyTextParses(time: string, zone: string, dob: Date) {
    IsValid(dob) && 1 <= dob.year && Parse(LegacyText(dob, time, zone)).Some?
  }

  /** With the check as written, every create fails with InvalidDateFormat and
      leaves the table as it was, whatever the candidate. */
  lemma CreateWithLegacyTextCheckAlwaysFails(
    t: Table, u: User, now: Date, minimumAge: nat, time: string, zone: string)
    requires t.Valid() && IsNewUser(u) && IsValid(now)
    ensures CreateOutcome(t, u, now, minimumAge, dob => LegacyTextParses(time, zone, dob))
      == Outcome(Err(InvalidDateFormat), t)
  {
    var dob := u.dateOfBirth.value;
    if 1 <= dob.year {
      LegacyTextNeverParses(dob, time, zone);
    }
  }

  /** The evidently intended check: the date of birth's yyyy-MM-dd text
      parses. */
  predicate CanonicalTextParses(dob: Date) {
    IsFormattable(dob) && Parse(Format(dob)).Some?
  }

  /** With the intended check, a candidate born on a real day with a
      four-digit year never fails with InvalidDateFormat; it is created
      exactly when it is old enough and its email is free. */
  lemma CreateWithCanonicalCheckReachesTheOtherChecks(t: Table, u: User, now: Date, minimumAge: nat)
    requires t.Valid() && IsNewUser(u) && IsValid(now)
    requires 1 <= u.dateOfBirth.value.year <= 9999
    ensures var o := CreateOutcome(t, u, now, minimumAge, CanonicalTextParses);
      && o.result != Err(InvalidDateFormat)
      && (o.result.Ok? <==> IsUserAboveMinimumAge(u, now, minimumAge) && !EmailTaken(t, u.email))
  {
    ParseFormatRoundTrip(u.dateOfBirth.value);
  }
}
