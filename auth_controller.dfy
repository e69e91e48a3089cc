/** The controllers of `controllers/authController.js` that change the user collection, as
    methods of one store. Each method does what the controller does, step by step: check the
    request, look the record up, assign its fields one by one, save it, then send the email.
    Its postcondition equates the reply and the new table with the function of `Accounts` that
    specifies the controller, and says which emails were sent. The random bytes, the salt, the
    clock and the new `_id` are arguments. */
module AuthController {
  import opened Wrappers
  import opened Replies
  import opened Requests
  import opened Password
  import opened Accounts
  import Hex
  import EmailFormat

  /** What the controllers hand to the mail transport (`forgotPasswordEmail`,
      `resetPasswordEmail`); the HTML body is not modelled. */
  datatype Mail =
    | ResetLinkMail(to: Option<string>, name: Option<string>, link: string)
    | PasswordChangedMail(to: Option<string>, name: Option<string>)

  class UserStore {
    /** The user collection, in insertion order. */
    var users: seq<User>
    /** Every email sent so far, oldest first. */
    var outbox: seq<Mail>
    /** `hashPassword` and `comparePassword`. */
    const hasher: Hasher
    /** `process.env.CLIENT_URL`. */
    const clientUrl: string

    ghost predicate Valid()
      reads this
    {
      IdsDistinct(users) && ResetPairsConsistent(users)
    }

    constructor (hasher: Hasher, clientUrl: string)
      ensures Valid()
      ensures users == [] && outbox == []
      ensures this.hasher == hasher && this.clientUrl == clientUrl
    {
      this.users := [];
      this.outbox := [];
      this.hasher := hasher;
      this.clientUrl := clientUrl;
    }

    /** `registerController`. */
    method Register(name: Option<string>, email: Option<string>, password: Option<string>, id: Id, salt: Salt)
      returns (r: Outcome<Id>)
      requires Valid() && FreshId(users, id)
      modifies this
      ensures Valid()
      ensures Step(r, users) == Create(old(users), hasher, name, email, password, id, salt, false)
      ensures outbox == old(outbox)
    {
      r := CreateAccount(name, email, password, id, salt, false);
    }

    /** `addUserAdminController`: as `Register`, and the new account is marked verified. */
    method AddUserByAdmin(name: Option<string>, email: Option<string>, password: Option<string>, id: Id, salt: Salt)
      returns (r: Outcome<Id>)
      requires Valid() && FreshId(users, id)
      modifies this
      ensures Valid()
      ensures Step(r, users) == Create(old(users), hasher, name, email, password, id, salt, true)
      ensures outbox == old(outbox)
    {
      r := CreateAccount(name, email, password, id, salt, true);
    }

    method CreateAccount(name: Option<string>, email: Option<string>, password: Option<string>, id: Id,
                         salt: Salt, verified: bool)
      returns (r: Outcome<Id>)
      requires Valid() && FreshId(users, id)
      modifies this
      ensures Valid()
      ensures Step(r, users) == Create(old(users), hasher, name, email, password, id, salt, verified)
      ensures outbox == old(outbox)
    {
      if !Present(name) {
        return Fail(NameRequired);
      }
      if !Present(email) {
        return Fail(EmailRequired);
      }
      if !Present(password) {
        return Fail(PasswordRequired);
      }
      var existing := FindOne(users, EmailIs(email.value));
      if existing.Some? {
        return Fail(EmailAlreadyRegistered);
      }
      var hashed := hasher.hash(password.value, salt);
      var user := User(id, name, email, hashed, DefaultRole, DefaultStatus, verified, None, None);
      users := users + [user];
      r := Ok(id);
    }

    /** `forgotPasswordController`: the token is the hexadecimal text of twenty random bytes. */
    method ForgotPassword(email: Option<string>, random: seq<Hex.Byte>, now: int) returns (r: Outcome<()>)
      requires Valid() && |random| == Hex.TokenBytes
      modifies this
      ensures Valid()
      ensures Step(r, users) == Forgot(old(users), email, Hex.Encode(random), now)
      ensures r.Fail? ==> outbox == old(outbox)
      ensures r.Ok? ==>
        var i := FindOne(old(users), EmailIs(email.value)).value;
        outbox == old(outbox) + [ResetLinkMail(users[i].email, users[i].name,
                                               clientUrl + "/reset-password/" + Hex.Encode(random))]
    {
      if !Present(email) {
        return Fail(EmailRequired);
      }
      var found := FindOne(users, EmailIs(email.value));
      if found.None? {
        return Fail(EmailNotFound);
      }
      var i := found.value;
      var resetToken := Hex.Encode(random);
      var resetTokenExpiresAt := now + ResetTokenLifetime;
      var user := users[i];
      user := user.(resetToken := Some(resetToken));
      user := user.(resetExpiresAt := Some(resetTokenExpiresAt));
      users := users[i := user];
      outbox := outbox + [ResetLinkMail(user.email, user.name, clientUrl + "/reset-password/" + resetToken)];
      r := Ok(());
    }

    /** `resetPasswordController`. */
    method ResetPassword(token: string, password: string, salt: Salt, now: int) returns (r: Outcome<()>)
      requires Valid()
      modifies this
      ensures Valid()
      ensures Step(r, users) == Reset(old(users), hasher, token, password, salt, now)
      ensures r.Fail? ==> outbox == old(outbox)
      ensures r.Ok? ==>
        var i := FindOne(old(users), LiveToken(token, now)).value;
        outbox == old(outbox) + [PasswordChangedMail(users[i].email, users[i].name)]
    {
      var found := FindOne(users, LiveToken(token, now));
      if found.None? {
        return Fail(InvalidOrExpiredToken);
      }
      var i := found.value;
      var hashed := hasher.hash(password, salt);
      var user := users[i];
      user := user.(password := hashed);
      user := user.(resetToken := None);
      user := user.(resetExpiresAt := None);
      users := users[i := user];
      outbox := outbox + [PasswordChangedMail(user.email, user.name)];
      r := Ok(());
    }

    /** `profileUpdateController`. */
    method UpdateProfile(id: Id, name: Option<string>, email: Option<string>, password: Option<string>, salt: Salt)
      returns (r: Outcome<()>)
      requires Valid()
      modifies this
      ensures Valid()
      ensures Step(r, users) == Accounts.UpdateProfile(old(users), hasher, id, name, email, password, salt)
      ensures outbox == old(outbox)
    {
      var found := FindOne(users, IdIs(id));
      if found.None? {
        return Fail(AccountNotFound);
      }
      var i := found.value;
      var user := users[i];
      user := user.(name := name);
      user := user.(email := email);
      if Present(password) {
        var hashed := hasher.hash(password.value, salt);
        user := user.(password := hashed);
      }
      users := users[i := user];
      r := Ok(());
    }

    /** `userUpdateController`. */
    method UpdateUser(id: Id, name: Option<string>, email: Option<string>, password: Option<string>,
                      status: Option<int>, salt: Salt)
      returns (r: Outcome<()>)
      requires Valid()
      modifies this
      ensures Valid()
      ensures Step(r, users) == Accounts.UpdateUser(old(users), hasher, id, name, email, password, status, salt)
      ensures outbox == old(outbox)
    {
      if !Present(name) || !Present(email) {
        return Fail(NameAndEmailRequired);
      }
      if !EmailFormat.IsValidEmail(email.value) {
        return Fail(InvalidEmailFormat);
      }
      if status.Some? && status.value !in {0, 1} {
        return Fail(InvalidStatus);
      }
      var found := FindOne(users, IdIs(id));
      if found.None? {
        return Fail(AccountNotFound);
      }
      var i := found.value;
      var user := users[i];
      user := user.(name := name);
      user := user.(email := email);
      if Present(password) {
        var hashed := hasher.hash(password.value, salt);
        user := user.(password := hashed);
      }
      if status.Some? {
        user := user.(status := status.value);
      }
      users := users[i := user];
      r := Ok(());
    }
  }
}
