# User management service: a verified Dafny model

This project models the user-management service of a small CRUD application.
The service keeps a table of `User` records keyed by integer id. It has six
operations:

- list all users;
- get a user by id;
- create a user, after a date-format check, an inclusive minimum-age check and an email-uniqueness check;
- update a user, with a null-means-keep field overlay;
- delete a user;
- list the users born within an inclusive `yyyy-MM-dd` date range.

Every failure is one of five named kinds: `UserNotFound`, `InvalidDateFormat`,
`InvalidDateRange`, `MinimumAge` and `UserAlreadyExists`. Each is a variant of
`Service.Error` and is returned in a `Result` rather than thrown.

Files and modules:

- `wrappers.dfy`, module `Wrappers`: `Option`. `None` stands for a Java `null`.
- `dates.dfy`, module `Dates`: day-granular dates and their lexicographic order.
  It also holds the strict `yyyy-MM-dd` parser and its formatter, with leap years
  and month lengths. Then the calendar's "n years earlier" (29 February becomes
  28 February in a common year), and age in whole years.
- `user.dfy`, module `UserModel`: the `User` record and its field constraints.
- `repository.dfy`, module `UserRepository`: the table as a value.
  A `Table` holds `users: map<int, User>` and the next id to assign.
  Its invariant says:
  - each record sits under its own id;
  - ids stay below the counter, so an id is never handed out twice;
  - required fields are present;
  - emails are unique.
  The module also holds the queries the service issues, including the inclusive `BETWEEN` range.
- `service.dfy`, module `Service`: each operation as a pure function from the table
  before to the result and the table after. It also holds the class `UserService`.
  Its `users` and `nextId` fields are updated in place by `CreateUser`, `UpdateUser`
  and `DeleteUser`. Each method is proved to agree with its function.
- `properties.dfy`, module `ServiceProperties`: properties that relate several
  operations, and worked examples.

The current day ("now") is a parameter of create and update. The minimum age is a
`nat` fixed when the service is constructed. Two predicates come from libraries
outside this model: the email-syntax validator (`isEmail`) and the format check on
the date of birth's text form (`dobTextParses`). Both are parameters, so every
outcome of either is covered.

## Model

| member | source | states |
|---|---|---|
| `Dates.DaysInMonth` | src/main/java/ua/dtsebulia/testassignment/service/UserService.java:173-174 | month lengths for strict date parsing: 28 to 31 days, with 29 exactly for February of a leap year |
| `Dates.OrderIsTotal` | src/main/java/ua/dtsebulia/testassignment/service/UserService.java:186 | date order is total and asymmetric, so "from is after to" is exactly "from is not on or before to" |
| `Dates.YearsBefore` | src/main/java/ua/dtsebulia/testassignment/service/UserService.java:93-94 | the day n years before a valid day is a valid day with the year lowered by n and the same month; the day of month is kept, except that 29 February becomes 28 February in a common year |
| `Dates.OnOrBeforeYearsBeforeIffAge` | src/main/java/ua/dtsebulia/testassignment/service/UserService.java:91-100 | for valid days, being born on or before the cutoff (now minus n years) holds exactly when the age in whole years is at least n |
| `Dates.Parse` | src/main/java/ua/dtsebulia/testassignment/service/UserService.java:173-184 | strict yyyy-MM-dd parsing: whatever it accepts is a real calendar day with a year from 1 to 9999 |
| `Dates.ParseIsSound` | src/main/java/ua/dtsebulia/testassignment/service/UserService.java:173-184 | a parsed date is a real calendar day with a year from 1 to 9999, and the parsed text is exactly that date's canonical yyyy-MM-dd form (no lenient rollover) |
| `Dates.ParseFormatRoundTrip` | src/main/java/ua/dtsebulia/testassignment/service/UserService.java:173-184 | every valid date with a year from 1 to 9999 parses back from its canonical text |
| `Dates.ParseCharacterization` | src/main/java/ua/dtsebulia/testassignment/service/UserService.java:173-184 | both directions: parsing s gives d exactly when d is a valid date in range and s is its canonical text |
| `Dates.ParsesAsWritten` | src/main/java/ua/dtsebulia/testassignment/service/UserService.java:180-181 | a dash-separated ten-character text of digits parses to the date its digits spell when that date is valid and its year is at least 1, and fails otherwise |
| `Dates.LegacyText` | src/main/java/ua/dtsebulia/testassignment/service/UserService.java:65 | the default text of a date (weekday, month name, day, time, zone, year) never begins with a digit |
| `Dates.LegacyTextNeverParses` | src/main/java/ua/dtsebulia/testassignment/service/UserService.java:61-68 | no default text of a date is accepted by the strict yyyy-MM-dd parser |
| `UserModel.HasRequiredFields` | src/main/java/ua/dtsebulia/testassignment/model/User.java:26-38 | first name, last name, email and date of birth are all present, and the date of birth is a real calendar day |
| `UserModel.IsValidUser` | src/main/java/ua/dtsebulia/testassignment/model/User.java:26-38 | a valid user has the required fields, a syntactically valid email and a date of birth in the past: never after today |
| `UserModel.UnconstrainedFieldsDoNotAffectValidity` | src/main/java/ua/dtsebulia/testassignment/model/User.java:22-41 | the id, address and phone number carry no constraint: changing them never changes whether a user is valid |
| `UserModel.PastBoundary` | src/main/java/ua/dtsebulia/testassignment/model/User.java:36-38 | a date of birth earlier today than now passes the past-date rule; one on a later day fails it |
| `UserRepository.Table.Valid` | src/main/java/ua/dtsebulia/testassignment/model/User.java:22-38 | the store invariant (each record under its own id, ids positive and below the counter, required fields present, emails unique) leaves the next id free |
| `UserRepository.EmailTaken` | src/main/java/ua/dtsebulia/testassignment/service/UserService.java:76 | the lookup by email finds a record exactly when some user in the listing of all users has that email |
| `UserRepository.AllUsers` | src/main/java/ua/dtsebulia/testassignment/service/UserService.java:34 | findAll lists a record exactly when some stored id holds it |
| `UserRepository.AllUsersOnePerRecord` | src/main/java/ua/dtsebulia/testassignment/service/UserService.java:33-35 | in a valid table there are exactly as many distinct records as stored ids |
| `UserRepository.FindUsersByBirthdayRange` | src/main/java/ua/dtsebulia/testassignment/repository/UserRepository.java:19-26 | the range query returns exactly the stored records whose date of birth is between the bounds, both ends included |
| `Service.IsUserAboveMinimumAge` | src/main/java/ua/dtsebulia/testassignment/service/UserService.java:91-100 | the minimum-age check accepts a real date of birth exactly when the user is at least minimumAge whole years old |
| `Service.AgeCheckBoundary` | src/main/java/ua/dtsebulia/testassignment/service/UserService.java:99 | the check is inclusive: birth on the cutoff day passes, birth on any later day fails |
| `Service.AllUsersOutcome` | src/main/java/ua/dtsebulia/testassignment/service/UserService.java:33-35 | getAllUsers lists every stored record and nothing else, one entry per id |
| `Service.LookupById` | src/main/java/ua/dtsebulia/testassignment/service/UserService.java:44-48 | getUserById succeeds exactly when the id is stored, returning that record (whose id is the one asked for); otherwise it fails with UserNotFound |
| `Service.CreateOutcome` | src/main/java/ua/dtsebulia/testassignment/service/UserService.java:59-81 | the checks run in order and the first failure decides the error: date format, then minimum age, then email already taken (each error stated as an if-and-only-if); a failure leaves the table unchanged; success stores the input, unchanged except for a previously unused id, adds exactly that record, and keeps the table invariant (emails unique) |
| `Service.Overlay` | src/main/java/ua/dtsebulia/testassignment/service/UserService.java:153-160 | the overlay keeps the stored id, and laying a patch over a record with its required fields keeps them present |
| `Service.UpdateOutcome` | src/main/java/ua/dtsebulia/testassignment/service/UserService.java:127-143 | an absent id gives UserNotFound; otherwise the patch's date of birth gives MinimumAge; otherwise the patch's email, when it is taken and differs from the user's current email, gives UserAlreadyExists; a failure changes nothing; success stores the overlay under the same id, leaves every other record alone and keeps emails unique |
| `Service.DeleteOutcome` | src/main/java/ua/dtsebulia/testassignment/service/UserService.java:108-115 | an absent id gives UserNotFound and no change; otherwise exactly that id is removed, every other record and the id counter are kept |
| `Service.BirthdayRangeOutcome` | src/main/java/ua/dtsebulia/testassignment/service/UserService.java:171-191 | InvalidDateFormat exactly when either bound fails strict parsing; InvalidDateRange exactly when both parse and from is after to (equal bounds allowed); otherwise exactly the stored users born between the bounds, both included |
| `Service.UserService.constructor` | src/main/java/ua/dtsebulia/testassignment/service/UserService.java:21-26 | a new service has an empty, valid table and the given minimum age and date-text check |
| `Service.UserService.GetAllUsers` | src/main/java/ua/dtsebulia/testassignment/service/UserService.java:33-35 | returns what AllUsersOutcome specifies for the current table, without changing it |
| `Service.UserService.GetUserById` | src/main/java/ua/dtsebulia/testassignment/service/UserService.java:44-48 | returns what LookupById specifies for the current table, without changing it |
| `Service.UserService.CreateUser` | src/main/java/ua/dtsebulia/testassignment/service/UserService.java:59-81 | result and new table are those of CreateOutcome on the old table; the table invariant is kept |
| `Service.UserService.DeleteUser` | src/main/java/ua/dtsebulia/testassignment/service/UserService.java:108-115 | result and new table are those of DeleteOutcome on the old table; the table invariant is kept |
| `Service.UserService.UpdateUser` | src/main/java/ua/dtsebulia/testassignment/service/UserService.java:127-143 | result and new table are those of UpdateOutcome on the old table; the table invariant is kept |
| `Service.UserService.UpdateUserWithNullChecks` | src/main/java/ua/dtsebulia/testassignment/service/UserService.java:153-160 | the field-by-field setter sequence yields the overlay of the patch on the stored record |
| `Service.UserService.GetUserByBirthdayRange` | src/main/java/ua/dtsebulia/testassignment/service/UserService.java:171-191 | returns what BirthdayRangeOutcome specifies for the current table, without changing it |
| `ServiceProperties.CreateThenGetById` | src/main/java/ua/dtsebulia/testassignment/service/UserService.java:44-80 | a created user reads back by its new id exactly as stored, and differs from the submitted record only in the id |
| `ServiceProperties.CreateAddsOneRecord` | src/main/java/ua/dtsebulia/testassignment/service/UserService.java:33-80 | after a successful create, getAllUsers lists exactly one more record |
| `ServiceProperties.SecondCreateWithSameEmailFails` | src/main/java/ua/dtsebulia/testassignment/service/UserService.java:74-80 | after one successful create, a second create with the same email never succeeds; once its date checks pass it fails with UserAlreadyExists |
| `ServiceProperties.DeleteThenGetById` | src/main/java/ua/dtsebulia/testassignment/service/UserService.java:108-115 | after deleteUser(id), getUserById(id) fails with UserNotFound |
| `ServiceProperties.Serve` | src/main/java/ua/dtsebulia/testassignment/model/User.java:22-24 | serving any sequence of create, update and delete requests keeps the table invariant and never lowers the id counter |
| `ServiceProperties.DeletedIdIsNotReused` | src/main/java/ua/dtsebulia/testassignment/model/User.java:22-24 | an id freed by a delete is never assigned by a create, whatever requests are served between the delete and that create |
| `ServiceProperties.UpdateOwnEmailNeverConflicts` | src/main/java/ua/dtsebulia/testassignment/service/UserService.java:137-140 | re-submitting a user's current email never fails with UserAlreadyExists, although a record with that email (the user itself) exists |
| `ServiceProperties.UpdateConflictIsWithAnotherRecord` | src/main/java/ua/dtsebulia/testassignment/service/UserService.java:137-140 | an email conflict on update always comes from another stored record with that email |
| `ServiceProperties.UpdateTakesPresentFieldsKeepsTheRest` | src/main/java/ua/dtsebulia/testassignment/service/UserService.java:141-160 | after a successful update the stored record takes every non-null patch field and keeps every field the patch leaves null, keeps its id, and no id is added or removed and no other record changes |
| `ServiceProperties.OverlayIsIdempotent` | src/main/java/ua/dtsebulia/testassignment/service/UserService.java:153-160 | applying the same patch twice equals applying it once |
| `ServiceProperties.OverlayOfEmptyPatchIsIdentity` | src/main/java/ua/dtsebulia/testassignment/service/UserService.java:153-160 | a patch with every field null leaves the record as it was |
| `ServiceProperties.OverlayOfValidPatchIsValid` | src/main/java/ua/dtsebulia/testassignment/service/UserService.java:153-160 | overlaying a patch that meets the record's field constraints always yields a record that meets them |
| `ServiceProperties.UpdateAddressOnly` | src/main/java/ua/dtsebulia/testassignment/service/UserService.java:127-160 | a patch carrying only a new address (and the stored date of birth, which the age check reads) succeeds exactly when the age check passes, and then changes only the address |
| `ServiceProperties.SameDayRangeIsAllowed` | src/main/java/ua/dtsebulia/testassignment/service/UserService.java:186-188 | a range whose bounds are the same valid day is never rejected |
| `ServiceProperties.UserFoundOnOwnBirthday` | src/main/java/ua/dtsebulia/testassignment/repository/UserRepository.java:19-22 | every stored user born in the years 1 to 9999 is found by the one-day range of that day |
| `ServiceProperties.RangeWithFromAfterToIsRejected` | src/main/java/ua/dtsebulia/testassignment/service/UserService.java:186-188 | the range from 2005-01-01 to 2000-01-01 fails with InvalidDateRange |
| `ServiceProperties.RangeWithMonthTwentyIsRejected` | src/main/java/ua/dtsebulia/testassignment/service/UserService.java:173-184 | the bound 2000-20-20 (month 20) fails with InvalidDateFormat |
| `ServiceProperties.LegacyTextParses` | src/main/java/ua/dtsebulia/testassignment/service/UserService.java:65 | the date-text check as written: the default text of the date of birth parses as yyyy-MM-dd |
| `ServiceProperties.CreateWithLegacyTextCheckAlwaysFails` | src/main/java/ua/dtsebulia/testassignment/service/UserService.java:59-68 | with the date-text check as written, every create fails with InvalidDateFormat and leaves the table unchanged |
| `ServiceProperties.CreateWithCanonicalCheckReachesTheOtherChecks` | src/main/java/ua/dtsebulia/testassignment/service/UserService.java:59-80 | with the intended date-text check, a candidate born in the years 1 to 9999 never fails with InvalidDateFormat and is created exactly when old enough with a free email |
| `ServiceProperties.MinimumAgeExamples` | src/main/java/ua/dtsebulia/testassignment/service/UserService.java:91-100 | with minimum age 18 and now 2024-01-01, birth on 1990-01-01 passes and birth on 2010-01-01 fails |

## Left out

- HTTP routing, status codes, response bodies and logging are not modelled. The exception messages are not modelled either; each exception becomes an error variant.
- Persistence is not modelled. The in-model `Table` stands for the database. A save is modelled as inserting under the next id (create) or replacing under the existing id (update).
- Concurrent requests are not modelled; operations run one at a time. So the check-then-save race on email uniqueness does not arise here.
- `Service.UserService.CreateUser`: requires the candidate to have no id and to carry the four required fields. The source relies on the request validation in front of it for the required fields. A candidate that carries an id would get the persistence layer's merge semantics, which are not modelled.
- `Service.UserService.UpdateUser`: requires the patch to carry a date of birth. With a null one the source fails inside the calendar call, an outcome not modelled here. The date of birth, like every date in a record, is a real calendar day, because a `java.util.Date` always denotes one.
- `Service.UserService.CreateUser`: the date-format check on the date of birth's text form is the predicate parameter `dobTextParses`, so that the service covers both the check as written and the intended one (see "## Findings").
- `Dates.Parse`: accepts exactly four, two and two digits with two dashes and nothing after them. The library parser the source uses may also accept other digit counts, trailing text, spaces or tabs before each number field (" 2000-01-01"), and non-ASCII decimal digits; none of that is modelled. It also uses the proleptic Gregorian calendar: the library's default calendar is Julian before 15 October 1582, so it accepts a text such as "1500-02-29" that `Dates.Parse` rejects; and it rejects the ten days 5 to 14 October 1582 that the change of calendar skipped (such as "1582-10-10"), which `Dates.Parse` accepts.
- `Dates.LegacyText`: the time of day and the zone name are parameters, and the weekday is that of the proleptic Gregorian calendar. Only the first character matters to the parser.
- `Dates.YearsBefore`: uses day granularity and the proleptic Gregorian calendar. Time of day, time zones and the Julian calendar before 1582 are not modelled. The source compares instants: the cutoff carries the current time of day and a date of birth is at midnight. At day granularity this is the inclusive "on or before" test modelled here.
- The minimum age is configuration text that the source parses on every call. Here it is a constant `nat`, so a malformed or negative value is not modelled.
- The email-syntax rule is the predicate parameter `isEmail`, not a definition.
- `getAllUsers` and the range query return a set, not a list. The source promises no order, and records are distinct because their ids are.

## Findings

| source | as written | input that shows it | evidently intended | confidence | as-written member | corrected member |
|---|---|---|---|---|---|---|
| src/main/java/ua/dtsebulia/testassignment/service/UserService.java:61-68 | createUser parses the default text of the date of birth (`toString()`, "EEE MMM dd HH:mm:ss zzz yyyy") with the strict `yyyy-MM-dd` pattern, which rejects it at its first character, so every create fails with InvalidDateFormat | a user born 1990-01-01, whose date of birth reads "Mon Jan 01 00:00:00 UTC 1990"; the tests at src/test/java/ua/dtsebulia/testassignment/service/UserServiceTest.java:69-84 expect this user to be created | check the date of birth's `yyyy-MM-dd` text, which every real day with a four-digit year passes, so that create goes on to the age and email checks | not executed | `ServiceProperties.CreateWithLegacyTextCheckAlwaysFails` | `ServiceProperties.CreateWithCanonicalCheckReachesTheOtherChecks` |
