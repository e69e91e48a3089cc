/** Properties that relate several requests: a registered account can log in, an email cannot be
    registered twice, a reset token works for one hour and only once, a reset password replaces
    the old one, and the updates can leave two records with one email. */
module AccountProperties {
  import opened Wrappers
  import opened Replies
  import opened Requests
  import opened Password
  import opened Accounts

  /** Two tables whose records agree, position by position, on their emails answer every
      `findOne({ email })` alike. */
  lemma {:induction false} FindByEmailUnchanged(a: seq<User>, b: seq<User>, e: string)
    requires |a| == |b|
    requires forall i :: 0 <= i < |a| ==> a[i].email == b[i].email
    ensures FindOne(a, EmailIs(e)) == FindOne(b, EmailIs(e))
  {
    if a != [] {
      FindByEmailUnchanged(a[1..], b[1..], e);
    }
  }

  /** Under `TokensDistinct`, the token a record holds is held by that record alone. */
  lemma TokenHeldOnlyAt(users: seq<User>, i: nat)
    requires TokensDistinct(users)
    requires i < |users| && users[i].resetToken.Some?
    ensures forall j :: 0 <= j < |users| && j != i ==> users[j].resetToken != users[i].resetToken
  {
    forall j | 0 <= j < |users| && j != i ensures users[j].resetToken != users[i].resetToken {
      if j < i {
        assert users[j].resetToken.Some? ==> users[j].resetToken != users[i].resetToken;
      }
    }
  }

  /** A table that differs from `users` at position `i` only holds a live `token` nowhere if
      neither the new record at `i` nor any other record of `users` holds it. */
  lemma TokenGoneAfterUpdate(users: seq<User>, t: seq<User>, i: nat, token: string, now: int)
    requires |t| == |users| && i < |users|
    requires forall j :: 0 <= j < |users| && j != i ==> t[j] == users[j]
    requires forall j :: 0 <= j < |users| && j != i ==> users[j].resetToken != Some(token)
    requires t[i].resetToken != Some(token)
    ensures !Has(t, LiveToken(token, now))
  {
    forall j | 0 <= j < |t| ensures !Matches(t[j], LiveToken(token, now)) {
      if j != i {
        assert t[j] == users[j];
      }
    }
  }

  /** Register (or admin-add) followed by a login with the same email and password logs into
      the new account. */
  lemma LoginAfterCreate(users: seq<User>, h: Hasher, name: Option<string>, email: Option<string>,
                         password: Option<string>, id: Id, salt: Salt, verified: bool)
    requires Sound(h)
    requires Create(users, h, name, email, password, id, salt, verified).reply.Ok?
    ensures Login(Create(users, h, name, email, password, id, salt, verified).table, h, email, password)
            == Ok(SessionUser(id, name, email, DefaultRole))
  {
    var t := Create(users, h, name, email, password, id, salt, verified).table;
    var n := |users|;
    assert Matches(t[n], EmailIs(email.value));
    assert FindOne(t, EmailIs(email.value)) == Some(n);
  }

  /** A second registration of an email that was just registered is refused and inserts nothing. */
  lemma CreateTwiceConflicts(users: seq<User>, h: Hasher, name: Option<string>, email: Option<string>,
                             password: Option<string>, id: Id, salt: Salt, verified: bool,
                             name': Option<string>, password': Option<string>, id': Id, salt': Salt, verified': bool)
    requires Create(users, h, name, email, password, id, salt, verified).reply.Ok?
    requires Present(name') && Present(password')
    ensures var t := Create(users, h, name, email, password, id, salt, verified).table;
            Create(t, h, name', email, password', id', salt', verified') == Step(Fail(EmailAlreadyRegistered), t)
  {
    var t := Create(users, h, name, email, password, id, salt, verified).table;
    assert Matches(t[|users|], EmailIs(email.value));
  }

  /** A token issued at `now` to an account, when no record held it before, redeems at time
      `later` exactly when `later` is less than one hour after `now`. */
  lemma TokenRedeemableForOneHour(users: seq<User>, h: Hasher, email: Option<string>, token: string, now: int,
                                  password: string, salt: Salt, later: int)
    requires !TokenHeld(users, token)
    requires Forgot(users, email, token, now).reply.Ok?
    ensures Reset(Forgot(users, email, token, now).table, h, token, password, salt, later).reply.Ok?
            <==> later < now + ResetTokenLifetime
  {
    var t := Forgot(users, email, token, now).table;
    var i := FindOne(users, EmailIs(email.value)).value;
    if later < now + ResetTokenLifetime {
      assert Matches(t[i], LiveToken(token, later));
    } else {
      forall j | 0 <= j < |t| ensures !Matches(t[j], LiveToken(token, later)) {
        if j != i {
          assert t[j] == users[j];
        }
      }
    }
  }

  /** A new forgot-password request for an account makes the token it held before useless, as
      long as no two records shared a token. */
  lemma ForgotSupersedesEarlierToken(users: seq<User>, h: Hasher, email: Option<string>, token: string, now: int,
                                     earlier: string, password: string, salt: Salt, later: int)
    requires TokensDistinct(users)
    requires Forgot(users, email, token, now).reply.Ok?
    requires users[FindOne(users, EmailIs(email.value)).value].resetToken == Some(earlier)
    requires earlier != token
    ensures var t := Forgot(users, email, token, now).table;
            Reset(t, h, earlier, password, salt, later) == Step(Fail(InvalidOrExpiredToken), t)
  {
    var t := Forgot(users, email, token, now).table;
    var i := FindOne(users, EmailIs(email.value)).value;
    TokenHeldOnlyAt(users, i);
    TokenGoneAfterUpdate(users, t, i, earlier, later);
  }

  /** A reset token can be redeemed once: after a successful reset, every further reset with
      the same token fails and changes nothing (given that no two records shared a token). */
  lemma RedeemAtMostOnce(users: seq<User>, h: Hasher, token: string, password: string, salt: Salt, now: int,
                         password': string, salt': Salt, now': int)
    requires TokensDistinct(users)
    requires Reset(users, h, token, password, salt, now).reply.Ok?
    ensures var t := Reset(users, h, token, password, salt, now).table;
            Reset(t, h, token, password', salt', now') == Step(Fail(InvalidOrExpiredToken), t)
  {
    var t := Reset(users, h, token, password, salt, now).table;
    var i := FindOne(users, LiveToken(token, now)).value;
    TokenHeldOnlyAt(users, i);
    TokenGoneAfterUpdate(users, t, i, token, now');
  }

  /** After a reset of the account a login finds by `email`, that login succeeds with the new
      password and with no other. */
  lemma LoginAfterReset(users: seq<User>, h: Hasher, token: string, password: string, salt: Salt, now: int,
                        email: string, attempt: string)
    requires Sound(h) && Binding(h)
    requires Has(users, LiveToken(token, now))
    requires FindOne(users, EmailIs(email)) == FindOne(users, LiveToken(token, now))
    requires email != "" && attempt != ""
    ensures Login(Reset(users, h, token, password, salt, now).table, h, Some(email), Some(attempt)).Ok?
            <==> attempt == password
  {
    var t := Reset(users, h, token, password, salt, now).table;
    var i := FindOne(users, LiveToken(token, now)).value;
    EmailsKept(users, t, i, email);
    LoginFinds(t, h, email, attempt, i);
    assert t[i].password == h.hash(password, salt);
    assert h.compare(attempt, h.hash(password, salt)) <==> attempt == password;
  }

  /** Changing one record without touching its email keeps every `findOne({ email })`. */
  lemma EmailsKept(users: seq<User>, t: seq<User>, i: nat, email: string)
    requires |t| == |users| && i < |users|
    requires forall j :: 0 <= j < |users| && j != i ==> t[j] == users[j]
    requires t[i].email == users[i].email
    ensures FindOne(t, EmailIs(email)) == FindOne(users, EmailIs(email))
  {
    forall j | 0 <= j < |users| ensures users[j].email == t[j].email {
      if j != i {
        assert t[j] == users[j];
      }
    }
    FindByEmailUnchanged(users, t, email);
  }

  /** A login whose email lookup lands on record `i` succeeds exactly when `i`'s digest accepts
      the password. */
  lemma LoginFinds(t: seq<User>, h: Hasher, email: string, attempt: string, i: nat)
    requires FindOne(t, EmailIs(email)) == Some(i)
    requires email != "" && attempt != ""
    ensures Login(t, h, Some(email), Some(attempt)).Ok? <==> h.compare(attempt, t[i].password)
  {
    assert Has(t, EmailIs(email));
  }

  ghost predicate EmailsDistinct(users: seq<User>)
  {
    forall i, j :: 0 <= i < j < |users| && users[i].email.Some? ==> users[i].email != users[j].email
  }

  /** "One record per email" holds only as far as register and admin-add are concerned: a profile
      update can give a second record an email that is already in the table. */
  lemma ProfileUpdateCanDuplicateEmail(h: Hasher)
    ensures
      var a := User(1, Some("A"), Some("a@x.io"), h.hash("pa", 0), 0, 0, false, None, None);
      var b := User(2, Some("B"), Some("b@x.io"), h.hash("pb", 0), 0, 0, false, None, None);
      var r := UpdateProfile([a, b], h, 2, Some("B"), Some("a@x.io"), None, 0);
      && EmailsDistinct([a, b])
      && r.reply.Ok?
      && !EmailsDistinct(r.table)
  {
    var a := User(1, Some("A"), Some("a@x.io"), h.hash("pa", 0), 0, 0, false, None, None);
    var b := User(2, Some("B"), Some("b@x.io"), h.hash("pb", 0), 0, 0, false, None, None);
    assert Matches([a, b][1], IdIs(2));
    var r := UpdateProfile([a, b], h, 2, Some("B"), Some("a@x.io"), None, 0);
    assert r.table[0].email == r.table[1].email;
  }

  /** Appending a record without a reset token leaves an unheld token unheld. */
  lemma AppendKeepsTokenFree(users: seq<User>, t: seq<User>, token: string)
    requires |t| == |users| + 1 && t[..|users|] == users && t[|users|].resetToken.None?
    requires !TokenHeld(users, token)
    ensures !TokenHeld(t, token)
  {
    forall j | 0 <= j < |t| ensures t[j].resetToken != Some(token) {
      if j < |users| {
        assert t[j] == t[..|users|][j];
      }
    }
  }

  /** First half of the scenario below: an account is registered; a wrong password is refused
      and the right one logs in. */
  lemma RegisterThenLogin(users: seq<User>, h: Hasher, name: string, email: string, password: string,
                          wrong: string, id: Id, salt: Salt, token: string)
    requires Sound(h) && Binding(h)
    requires name != "" && email != "" && password != "" && wrong != "" && wrong != password
    requires !Has(users, EmailIs(email))
    requires TokensDistinct(users) && !TokenHeld(users, token)
    ensures
      var registered := Create(users, h, Some(name), Some(email), Some(password), id, salt, false);
      && registered.reply == Ok(id)
      && Login(registered.table, h, Some(email), Some(wrong)) == Fail(InvalidCredentials)
      && Login(registered.table, h, Some(email), Some(password)) == Ok(SessionUser(id, Some(name), Some(email), DefaultRole))
      && FindOne(registered.table, EmailIs(email)) == Some(|users|)
      && TokensDistinct(registered.table) && !TokenHeld(registered.table, token)
  {
    var s1 := Create(users, h, Some(name), Some(email), Some(password), id, salt, false).table;
    var n := |users|;
    LoginAfterCreate(users, h, Some(name), Some(email), Some(password), id, salt, false);
    assert FindOne(s1, EmailIs(email)) == Some(n);
    LoginFinds(s1, h, email, wrong, n);
    assert !h.compare(wrong, s1[n].password);
    AppendKeepsTokenFree(users, s1, token);
  }

  /** A forgot-password request for the account found by `email`, with a token no record holds,
      makes that account the one both its email and the live token find. */
  lemma ForgotForAccount(s1: seq<User>, n: nat, email: string, token: string, now: int, later: int)
    requires email != ""
    requires FindOne(s1, EmailIs(email)) == Some(n)
    requires TokensDistinct(s1) && !TokenHeld(s1, token)
    requires now <= later < now + ResetTokenLifetime
    ensures
      var requested := Forgot(s1, Some(email), token, now);
      && requested.reply.Ok?
      && FindOne(requested.table, EmailIs(email)) == Some(n)
      && FindOne(requested.table, LiveToken(token, later)) == Some(n)
      && TokensDistinct(requested.table)
  {
    var s2 := Forgot(s1, Some(email), token, now).table;
    assert Has(s1, EmailIs(email));
    EmailsKept(s1, s2, n, email);
    assert Matches(s2[n], LiveToken(token, later));
    forall j | 0 <= j < n ensures !Matches(s2[j], LiveToken(token, later)) {
      assert s2[j] == s1[j];
    }
    assert FindOne(s2, LiveToken(token, later)) == Some(n);
  }

  /** Redeeming the live token of the account found by `email` with `password'` makes
      `password'` log in and `password` fail, and spends the token. */
  lemma RedeemForAccount(s2: seq<User>, h: Hasher, n: nat, email: string, password: string, password': string,
                         token: string, salt': Salt, later: int, password'': string, salt'': Salt, evenLater: int)
    requires Sound(h) && Binding(h)
    requires email != "" && password != "" && password' != "" && password != password'
    requires FindOne(s2, EmailIs(email)) == Some(n) && FindOne(s2, LiveToken(token, later)) == Some(n)
    requires TokensDistinct(s2)
    ensures
      var reset := Reset(s2, h, token, password', salt', later);
      && reset.reply.Ok?
      && Login(reset.table, h, Some(email), Some(password)) == Fail(InvalidCredentials)
      && Login(reset.table, h, Some(email), Some(password')).Ok?
      && Reset(reset.table, h, token, password'', salt'', evenLater).reply == Fail(InvalidOrExpiredToken)
  {
    assert Has(s2, LiveToken(token, later));
    LoginAfterReset(s2, h, token, password', salt', later, email, password);
    LoginAfterReset(s2, h, token, password', salt', later, email, password');
    var s3 := Reset(s2, h, token, password', salt', later).table;
    EmailsKept(s2, s3, n, email);
    LoginFinds(s3, h, email, password, n);
    RedeemAtMostOnce(s2, h, token, password', salt', later, password'', salt'', evenLater);
  }

  /** The account lifecycle end to end: register Alice, log in with a wrong and with the right
      password, ask for a reset, redeem it within the hour with a new password, after which only
      the new password logs in and the same token is refused. */
  lemma AliceScenario(users: seq<User>, h: Hasher, id: Id, salt: Salt, token: string, now: int,
                      salt': Salt, later: int, salt'': Salt, evenLater: int)
    requires Sound(h) && Binding(h)
    requires !Has(users, EmailIs("alice@x.com"))
    requires TokensDistinct(users) && !TokenHeld(users, token)
    requires now <= later < now + ResetTokenLifetime
    ensures
      var alice := Some("alice@x.com");
      var registered := Create(users, h, Some("Alice"), alice, Some("pw1"), id, salt, false);
      var requested := Forgot(registered.table, alice, token, now);
      var reset := Reset(requested.table, h, token, "pw2", salt', later);
      && registered.reply == Ok(id)
      && Login(registered.table, h, alice, Some("wrong")) == Fail(InvalidCredentials)
      && Login(registered.table, h, alice, Some("pw1")) == Ok(SessionUser(id, Some("Alice"), alice, DefaultRole))
      && requested.reply.Ok?
      && reset.reply.Ok?
      && Login(reset.table, h, alice, Some("pw1")) == Fail(InvalidCredentials)
      && Login(reset.table, h, alice, Some("pw2")).Ok?
      && Reset(reset.table, h, token, "pw3", salt'', evenLater).reply == Fail(InvalidOrExpiredToken)
  {
    RegisterThenLogin(users, h, "Alice", "alice@x.com", "pw1", "wrong", id, salt, token);
    var s1 := Create(users, h, Some("Alice"), Some("alice@x.com"), Some("pw1"), id, salt, false).table;
    ForgotForAccount(s1, |users|, "alice@x.com", token, now, later);
    var s2 := Forgot(s1, Some("alice@x.com"), token, now).table;
    RedeemForAccount(s2, h, |users|, "alice@x.com", "pw1", "pw2", token, salt', later, "pw3", salt'', evenLater);
  }
}
