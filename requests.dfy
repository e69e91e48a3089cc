/** The input checks the controllers run on a request body before they touch the table. */
module Requests {
  import opened Wrappers
  import opened Replies
  import EmailFormat

  /** JavaScript truthiness of a string field of `req.body`: present and not empty. */
  predicate Present(v: Option<string>)
  {
    v.Some? && v.value != ""
  }

  /** The fields register and admin-add require, in the order they are checked. */
  datatype Field = Name | Email | Password

  function Rank(f: Field): nat
  {
    match f
    case Name => 0
    case Email => 1
    case Password => 2
  }

  function Pick(f: Field, name: Option<string>, email: Option<string>, password: Option<string>): Option<string>
  {
    match f
    case Name => name
    case Email => email
    case Password => password
  }

  function Missing(f: Field): Failure
  {
    match f
    case Name => NameRequired
    case Email => EmailRequired
    case Password => PasswordRequired
  }

  /** The field register and admin-add report: the first missing one in the order name, email,
      password, or none when all three are present. */
  function FirstMissing(name: Option<string>, email: Option<string>, password: Option<string>): (r: Option<Field>)
    ensures r.None? <==> Present(name) && Present(email) && Present(password)
    ensures r.Some? ==> !Present(Pick(r.value, name, email, password))
    ensures r.Some? ==> forall f :: Rank(f) < Rank(r.value) ==> Present(Pick(f, name, email, password))
  {
    if !Present(name) then Some(Name)
    else if !Present(email) then Some(Email)
    else if !Present(password) then Some(Password)
    else None
  }

  /** `status` is absent or one of 0 (active) and 1 (locked). */
  predicate StatusAllowed(status: Option<int>)
  {
    status.None? || status.value in {0, 1}
  }

  /** The checks of `userUpdateController`, in order: name and email present, email well
      formed, status absent or allowed. */
  function CheckUserUpdate(name: Option<string>, email: Option<string>, status: Option<int>): (r: Option<Failure>)
    ensures r.None? <==>
      Present(name) && Present(email) && EmailFormat.MatchesPattern(email.value) && StatusAllowed(status)
    ensures r == Some(NameAndEmailRequired) <==> !Present(name) || !Present(email)
    ensures r == Some(InvalidEmailFormat) <==>
      Present(name) && Present(email) && !EmailFormat.MatchesPattern(email.value)
    ensures r == Some(InvalidStatus) <==>
      Present(name) && Present(email) && EmailFormat.MatchesPattern(email.value) && !StatusAllowed(status)
  {
    if !Present(name) || !Present(email) then Some(NameAndEmailRequired)
    else
      EmailFormat.ValidEmailMatchesPattern(email.value);
      if !EmailFormat.IsValidEmail(email.value) then Some(InvalidEmailFormat)
      else if !StatusAllowed(status) then Some(InvalidStatus)
      else None
  }
}
