/** The User record: an optional identifier assigned by the store, four
    required fields and two optional ones. Each field the source declares as a
    nullable reference is an Option here (None is null). */
module UserModel {
  import opened Wrappers
  import opened Dates

  datatype User = User(
    id: Option<int>,
    firstName: Option<string>,
    lastName: Option<string>,
    email: Option<string>,
    dateOfBirth: Option<Date>,
    address: Option<string>,
    phoneNumber: Option<string>)

  /** The four not-null constraints: first name, last name, email, date of
      birth. A date of birth that is present is a real calendar day, as every
      java.util.Date is. */
  predicate HasRequiredFields(u: User) {
    u.firstName.Some? && u.lastName.Some? && u.email.Some? && u.dateOfBirth.Some?
    && IsValid(u.dateOfBirth.value)
  }

  /** Every field constraint on a User: the required fields are present, the
      email is syntactically an address (isEmail stands for the email
      validator, whose definition is not part of this model) and the date of
      birth is in the past. A date of birth is midnight of its day and now
      carries a time of day, so at day granularity "in the past" is "on or
      before today". The id, address and phone number carry no constraint. */
  predicate IsValidUser(u: User, now: Date, isEmail: string -> bool)
    ensures IsValidUser(u, now, isEmail) ==> HasRequiredFields(u) && !Before(now, u.dateOfBirth.value)
  {
    HasRequiredFields(u) && isEmail(u.email.value) && OnOrBefore(u.dateOfBirth.value, now)
  }

  /** A record as submitted for creation: no id yet, required fields present. */
  predicate IsNewUser(u: User) {
    u.id.None? && HasRequiredFields(u)
  }

  /** Neither the id, the address nor the phone number affects validity. */
  lemma UnconstrainedFieldsDoNotAffectValidity(
    u: User, id: Option<int>, address: Option<string>, phoneNumber: Option<string>,
    now: Date, isEmail: string -> bool)
    ensures IsValidUser(u, now, isEmail)
        <==> IsValidUser(u.(id := id, address := address, phoneNumber := phoneNumber), now, isEmail)
  {
  }

  /** A user born today, earlier today than now, is valid; one born tomorrow
      is not. */
  lemma PastBoundary(u: User, now: Date, isEmail: string -> bool)
    requires HasRequiredFields(u) && isEmail(u.email.value)
    ensures u.dateOfBirth.value == now ==> IsValidUser(u, now, isEmail)
    ensures Before(now, u.dateOfBirth.value) ==> !IsValidUser(u, now, isEmail)
  {
  }
}
