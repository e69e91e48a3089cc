/** The user collection as the controllers of `controllers/authController.js` see it, and each
    controller as a function from the table before the request to its reply and the table after.
    The table is kept in insertion order: a `findOne` without sort returns the first record that
    matches, in that order. */
module Accounts {
  import opened Wrappers
  import opened Replies
  import opened Requests
  import opened Password

  /** A record's `_id`; new ones are supplied by the caller. */
  type Id = nat

  /** Defaults the record schema gives a new user (role 0 is the one `getAlluserController`
      lists; status 0 is "Active"). */
  const DefaultRole := 0
  const DefaultStatus := 0

  /** Lifetime of a reset token, in milliseconds: `1 * 60 * 60 * 1000`. */
  const ResetTokenLifetime := 1 * 60 * 60 * 1000

  /** One record. `name` and `email` are optional because the profile update assigns them from
      the request whatever it holds; `password` holds a digest, never the plain text. */
  datatype User = User(
    id: Id,
    name: Option<string>,
    email: Option<string>,
    password: Digest,
    role: int,
    status: int,
    isVerified: bool,
    resetToken: Option<string>,
    resetExpiresAt: Option<int>)

  /** The query filters the controllers pass to the collection. */
  datatype Query =
    | EmailIs(email: string)                 // { email }
    | IdIs(id: Id)                           // findById(id)
    | LiveToken(token: string, now: int)     // { resetPasswordToken: token, resetPasswordExpiresAt: { $gt: now } }
    | RoleIs(role: int)                      // { role }

  predicate Matches(u: User, q: Query)
  {
    match q
    case EmailIs(e) => u.email == Some(e)
    case IdIs(id) => u.id == id
    case LiveToken(t, now) => u.resetToken == Some(t) && u.resetExpiresAt.Some? && u.resetExpiresAt.value > now
    case RoleIs(r) => u.role == r
  }

  ghost predicate Has(users: seq<User>, q: Query)
  {
    exists i :: 0 <= i < |users| && Matches(users[i], q)
  }

  /** `findOne(q)`: the position of the first record matching `q`. */
  function FindOne(users: seq<User>, q: Query): (r: Option<nat>)
    ensures r.Some? ==> r.value < |users| && Matches(users[r.value], q)
    ensures r.Some? ==> forall j :: 0 <= j < r.value ==> !Matches(users[j], q)
    ensures r.None? <==> !Has(users, q)
  {
    if users == [] then None
    else if Matches(users[0], q) then Some(0)
    else
      match FindOne(users[1..], q)
      case None =>
        assert forall j :: 1 <= j < |users| ==> users[j] == users[1..][j - 1];
        None
      case Some(i) => Some(i + 1)
  }

  /** `find(q)`: every record matching `q`, in table order. */
  function Select(users: seq<User>, q: Query): (r: seq<User>)
    ensures |r| <= |users|
    ensures forall u :: u in r <==> u in users && Matches(u, q)
    ensures forall u :: multiset(r)[u] == if Matches(u, q) then multiset(users)[u] else 0
  {
    if users == [] then []
    else
      assert users == [users[0]] + users[1..];
      assert forall u :: u in users <==> u == users[0] || u in users[1..];
      (if Matches(users[0], q) then [users[0]] else []) + Select(users[1..], q)
  }

  // ---------------------------------------------------------------------------------------
  // Invariants of the table

  ghost predicate IdsDistinct(users: seq<User>)
  {
    forall i, j :: 0 <= i < j < |users| ==> users[i].id != users[j].id
  }

  predicate FreshId(users: seq<User>, id: Id)
  {
    forall i :: 0 <= i < |users| ==> users[i].id != id
  }

  /** A reset token and its expiry are set together and cleared together. */
  predicate ResetPairConsistent(u: User)
  {
    u.resetToken.Some? <==> u.resetExpiresAt.Some?
  }

  ghost predicate ResetPairsConsistent(users: seq<User>)
  {
    forall i :: 0 <= i < |users| ==> ResetPairConsistent(users[i])
  }

  /** No two records hold the same pending reset token. */
  ghost predicate TokensDistinct(users: seq<User>)
  {
    forall i, j :: 0 <= i < j < |users| && users[i].resetToken.Some? ==> users[i].resetToken != users[j].resetToken
  }

  ghost predicate TokenHeld(users: seq<User>, token: string)
  {
    exists i :: 0 <= i < |users| && users[i].resetToken == Some(token)
  }

  /** The reply and the table after one request. */
  datatype Step<+T> = Step(reply: Outcome<T>, table: seq<User>)

  // ---------------------------------------------------------------------------------------
  // Register and add-user

  /** `registerController` (`verified` false) and `addUserAdminController` (`verified` true):
      check name, email, password; refuse an email already in the table; otherwise append one
      record holding the digest of the password. */
  function Create(users: seq<User>, h: Hasher, name: Option<string>, email: Option<string>,
                  password: Option<string>, id: Id, salt: Salt, verified: bool): (r: Step<Id>)
    ensures FirstMissing(name, email, password).Some? ==>
      r == Step(Fail(Missing(FirstMissing(name, email, password).value)), users)
    ensures r.reply == Fail(EmailAlreadyRegistered) <==>
      FirstMissing(name, email, password).None? && Has(users, EmailIs(email.value))
    ensures r.reply.Fail? ==> r.table == users
    ensures r.reply.Ok? <==> FirstMissing(name, email, password).None? && !Has(users, EmailIs(email.value))
    ensures r.reply.Ok? ==>
      && r.reply.value == id
      && |r.table| == |users| + 1
      && r.table[..|users|] == users
      && var u := r.table[|users|];
      && u.id == id && u.name == name && u.email == email
      && u.password == h.hash(password.value, salt)
      && u.role == DefaultRole && u.status == DefaultStatus && u.isVerified == verified
      && u.resetToken.None? && u.resetExpiresAt.None?
    ensures IdsDistinct(users) && FreshId(users, id) ==> IdsDistinct(r.table)
    ensures ResetPairsConsistent(users) ==> ResetPairsConsistent(r.table)
    ensures TokensDistinct(users) ==> TokensDistinct(r.table)
  {
    var missing := FirstMissing(name, email, password);
    if missing.Some? then Step(Fail(Missing(missing.value)), users)
    else if FindOne(users, EmailIs(email.value)).Some? then Step(Fail(EmailAlreadyRegistered), users)
    else
      var u := User(id, name, email, h.hash(password.value, salt), DefaultRole, DefaultStatus, verified, None, None);
      assert (users + [u])[..|users|] == users;
      Step(Ok(id), users + [u])
  }

  // ---------------------------------------------------------------------------------------
  // Login

  /** What a successful login returns about the account (the session token is issued for `id`). */
  datatype SessionUser = SessionUser(id: Id, name: Option<string>, email: Option<string>, role: int)

  function SessionOf(u: User): SessionUser
  {
    SessionUser(u.id, u.name, u.email, u.role)
  }

  /** `loginController`: both fields required; the first record with that email; its digest
      must accept the password. The table is only read. */
  function Login(users: seq<User>, h: Hasher, email: Option<string>, password: Option<string>): (r: Outcome<SessionUser>)
    ensures !Present(email) || !Present(password) ==> r == Fail(EmailAndPasswordRequired)
    ensures r == Fail(EmailNotFound) <==> Present(email) && Present(password) && !Has(users, EmailIs(email.value))
    ensures Present(email) && Present(password) && Has(users, EmailIs(email.value)) ==>
      var i := FindOne(users, EmailIs(email.value)).value;
      && (r.Ok? <==> h.compare(password.value, users[i].password))
      && (r.Ok? ==> r.value == SessionOf(users[i]))
      && (r.Fail? ==> r.failure == InvalidCredentials)
  {
    if !Present(email) || !Present(password) then Fail(EmailAndPasswordRequired)
    else
      match FindOne(users, EmailIs(email.value))
      case None => Fail(EmailNotFound)
      case Some(i) =>
        if !h.compare(password.value, users[i].password) then Fail(InvalidCredentials)
        else Ok(SessionOf(users[i]))
  }

  // ---------------------------------------------------------------------------------------
  // Password reset

  /** `forgotPasswordController`: email required; the first record with that email gets the
      token and an expiry one hour after `now`, replacing any pair it held. */
  function Forgot(users: seq<User>, email: Option<string>, token: string, now: int): (r: Step<()>)
    ensures !Present(email) ==> r == Step(Fail(EmailRequired), users)
    ensures Present(email) && !Has(users, EmailIs(email.value)) ==> r == Step(Fail(EmailNotFound), users)
    ensures Present(email) && Has(users, EmailIs(email.value)) ==>
      var i := FindOne(users, EmailIs(email.value)).value;
      && r.reply.Ok?
      && |r.table| == |users|
      && r.table[i].resetToken == Some(token)
      && r.table[i].resetExpiresAt == Some(now + ResetTokenLifetime)
      && r.table[i] == users[i].(resetToken := r.table[i].resetToken, resetExpiresAt := r.table[i].resetExpiresAt)
      && forall j :: 0 <= j < |users| && j != i ==> r.table[j] == users[j]
    ensures IdsDistinct(users) ==> IdsDistinct(r.table)
    ensures ResetPairsConsistent(users) ==> ResetPairsConsistent(r.table)
    ensures TokensDistinct(users) && !TokenHeld(users, token) ==> TokensDistinct(r.table)
  {
    if !Present(email) then Step(Fail(EmailRequired), users)
    else
      match FindOne(users, EmailIs(email.value))
      case None => Step(Fail(EmailNotFound), users)
      case Some(i) =>
        var u := users[i].(resetToken := Some(token), resetExpiresAt := Some(now + ResetTokenLifetime));
        Step(Ok(()), users[i := u])
  }

  /** `resetPasswordController`: the first record whose token is `token` and whose expiry is
      after `now` gets the digest of the new password, and both reset fields are cleared. */
  function Reset(users: seq<User>, h: Hasher, token: string, password: string, salt: Salt, now: int): (r: Step<()>)
    ensures !Has(users, LiveToken(token, now)) ==> r == Step(Fail(InvalidOrExpiredToken), users)
    ensures Has(users, LiveToken(token, now)) ==>
      var i := FindOne(users, LiveToken(token, now)).value;
      && r.reply.Ok?
      && |r.table| == |users|
      && r.table[i].password == h.hash(password, salt)
      && r.table[i].resetToken.None? && r.table[i].resetExpiresAt.None?
      && r.table[i] == users[i].(password := r.table[i].password, resetToken := None, resetExpiresAt := None)
      && forall j :: 0 <= j < |users| && j != i ==> r.table[j] == users[j]
    ensures IdsDistinct(users) ==> IdsDistinct(r.table)
    ensures ResetPairsConsistent(users) ==> ResetPairsConsistent(r.table)
    ensures TokensDistinct(users) ==> TokensDistinct(r.table)
  {
    match FindOne(users, LiveToken(token, now))
    case None => Step(Fail(InvalidOrExpiredToken), users)
    case Some(i) =>
      var u := users[i].(password := h.hash(password, salt), resetToken := None, resetExpiresAt := None);
      Step(Ok(()), users[i := u])
  }

  // ---------------------------------------------------------------------------------------
  // Record updates

  /** `profileUpdateController`: the record with that id gets name and email from the request
      as they are, and a new digest only when a password is given. */
  function UpdateProfile(users: seq<User>, h: Hasher, id: Id, name: Option<string>, email: Option<string>,
                         password: Option<string>, salt: Salt): (r: Step<()>)
    ensures !Has(users, IdIs(id)) ==> r == Step(Fail(AccountNotFound), users)
    ensures Has(users, IdIs(id)) ==>
      var i := FindOne(users, IdIs(id)).value;
      && r.reply.Ok?
      && |r.table| == |users|
      && r.table[i].name == name && r.table[i].email == email
      && r.table[i].password == (if Present(password) then h.hash(password.value, salt) else users[i].password)
      && r.table[i] == users[i].(name := name, email := email, password := r.table[i].password)
      && forall j :: 0 <= j < |users| && j != i ==> r.table[j] == users[j]
    ensures IdsDistinct(users) ==> IdsDistinct(r.table)
    ensures ResetPairsConsistent(users) ==> ResetPairsConsistent(r.table)
    ensures TokensDistinct(users) ==> TokensDistinct(r.table)
  {
    match FindOne(users, IdIs(id))
    case None => Step(Fail(AccountNotFound), users)
    case Some(i) =>
      var digest := if Present(password) then h.hash(password.value, salt) else users[i].password;
      Step(Ok(()), users[i := users[i].(name := name, email := email, password := digest)])
  }

  /** `userUpdateController`: the request checks first, then the record with that id gets name
      and email, a new digest when a password is given and the status when one is given. */
  function UpdateUser(users: seq<User>, h: Hasher, id: Id, name: Option<string>, email: Option<string>,
                      password: Option<string>, status: Option<int>, salt: Salt): (r: Step<()>)
    ensures CheckUserUpdate(name, email, status).Some? ==>
      r == Step(Fail(CheckUserUpdate(name, email, status).value), users)
    ensures CheckUserUpdate(name, email, status).None? && !Has(users, IdIs(id)) ==>
      r == Step(Fail(AccountNotFound), users)
    ensures CheckUserUpdate(name, email, status).None? && Has(users, IdIs(id)) ==>
      var i := FindOne(users, IdIs(id)).value;
      && r.reply.Ok?
      && |r.table| == |users|
      && r.table[i].name == name && r.table[i].email == email
      && r.table[i].password == (if Present(password) then h.hash(password.value, salt) else users[i].password)
      && r.table[i].status == (if status.Some? then status.value else users[i].status)
      && r.table[i] == users[i].(name := name, email := email, password := r.table[i].password, status := r.table[i].status)
      && forall j :: 0 <= j < |users| && j != i ==> r.table[j] == users[j]
    ensures IdsDistinct(users) ==> IdsDistinct(r.table)
    ensures ResetPairsConsistent(users) ==> ResetPairsConsistent(r.table)
    ensures TokensDistinct(users) ==> TokensDistinct(r.table)
  {
    var rejected := CheckUserUpdate(name, email, status);
    if rejected.Some? then Step(Fail(rejected.value), users)
    else
      match FindOne(users, IdIs(id))
      case None => Step(Fail(AccountNotFound), users)
      case Some(i) =>
        var digest := if Present(password) then h.hash(password.value, salt) else users[i].password;
        var newStatus := if status.Some? then status.value else users[i].status;
        Step(Ok(()), users[i := users[i].(name := name, email := email, password := digest, status := newStatus)])
  }

  // ---------------------------------------------------------------------------------------
  // Queries

  /** A record as `select("-password")` returns it: every field but the digest. */
  datatype Listed = Listed(
    id: Id,
    name: Option<string>,
    email: Option<string>,
    role: int,
    status: int,
    isVerified: bool,
    resetToken: Option<string>,
    resetExpiresAt: Option<int>)

  function WithoutPassword(u: User): Listed
  {
    Listed(u.id, u.name, u.email, u.role, u.status, u.isVerified, u.resetToken, u.resetExpiresAt)
  }

  /** `getAlluserController`: every record with role 0, digest dropped, in table order; a
      failure when there is none. */
  function ListUsers(users: seq<User>): (r: Outcome<seq<Listed>>)
    ensures r.Fail? <==> !Has(users, RoleIs(DefaultRole))
    ensures r.Fail? ==> r.failure == NoUsersFound
    ensures r.Ok? ==> forall v :: v in r.value <==> exists u :: u in users && u.role == DefaultRole && v == WithoutPassword(u)
    ensures r.Ok? ==>
      var selected := Select(users, RoleIs(DefaultRole));
      && |r.value| == |selected|
      && forall k :: 0 <= k < |r.value| ==> r.value[k] == WithoutPassword(selected[k])
  {
    var selected := Select(users, RoleIs(DefaultRole));
    if selected == [] then
      assert forall i :: 0 <= i < |users| ==> users[i] in users;
      Fail(NoUsersFound)
    else
      assert selected[0] in users;
      Ok(WithoutPasswords(selected))
  }

  /** `select("-password")` applied to each record of a result, in order. */
  function WithoutPasswords(us: seq<User>): (r: seq<Listed>)
    ensures |r| == |us| && forall k :: 0 <= k < |r| ==> r[k] == WithoutPassword(us[k])
    ensures forall v :: v in r <==> exists u :: u in us && v == WithoutPassword(u)
  {
    var listed := seq(|us|, k requires 0 <= k < |us| => WithoutPassword(us[k]));
    assert forall v :: v in listed <==> exists u :: u in us && v == WithoutPassword(u) by {
      forall v | v in listed ensures exists u :: u in us && v == WithoutPassword(u) {
        var k :| 0 <= k < |listed| && listed[k] == v;
        assert us[k] in us;
      }
      forall v | exists u :: u in us && v == WithoutPassword(u) ensures v in listed {
        var u :| u in us && v == WithoutPassword(u);
        var k :| 0 <= k < |us| && us[k] == u;
        assert listed[k] == v;
      }
    }
    listed
  }

  /** `getSingleUserController`: the record with that id, digest included. */
  function GetUser(users: seq<User>, id: Id): (r: Outcome<User>)
    ensures r.Ok? <==> Has(users, IdIs(id))
    ensures r.Ok? ==> r.value in users && r.value.id == id
    ensures r.Fail? ==> r.failure == AccountNotFound
    ensures IdsDistinct(users) ==> forall i :: 0 <= i < |users| && users[i].id == id ==> r == Ok(users[i])
  {
    match FindOne(users, IdIs(id))
    case None => Fail(AccountNotFound)
    case Some(i) => Ok(users[i])
  }
}
