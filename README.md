# Account controllers of creez-backend, modelled in Dafny

This project models the account controllers of `controllers/authController.js`: registration,
admin-created accounts, login, the forgot/reset password flow, the two record-update
controllers and the two user queries. The persistence layer, bcrypt, JWT and nodemailer are
replaced by the following:

- **The user collection** is a sequence of `User` records kept in insertion order (`Accounts.User`).
  A `findOne(filter)` is modelled as "the first record matching the filter" (`Accounts.FindOne`).
  MongoDB promises no order for `findOne` without a sort, so this is one admissible choice, and
  the model commits to it.
- **`hashPassword` / `comparePassword`** are a pair of function values (`Password.Hasher`).
  bcrypt's random salt is an explicit argument. The two properties the flow relies on are
  hypotheses of the lemmas that need them: `Sound` says a digest accepts its own password, and
  `Binding` says it accepts no other one. bcrypt reads only the first 72 bytes of a password, so
  `Binding` holds for it only among passwords that differ within those bytes (see "Left out").
- **`crypto.randomBytes(20).toString("hex")`** becomes twenty bytes passed in by the caller,
  encoded by `Hex.Encode` (lower-case, two digits per byte).
- **`Date.now()`, bcrypt salts and new `_id` values** are arguments.
- **Email sending** appends to a log (`AuthController.UserStore.outbox`).

Each controller that writes the table (register, admin-add, forgot password, reset password and
the two updates) is modelled twice, in two layers:

- `Accounts` states each controller as a function from the table before the request to the reply
  and the table after it.
- `AuthController.UserStore` performs the same controller imperatively: it checks the request,
  fetches the record, assigns fields one at a time, saves, and then mails. Its postconditions
  equate the result with the `Accounts` function.

Login and the two queries (all users, one user) only read the table. They appear only in
`Accounts`, as `Accounts.Login`, `Accounts.ListUsers` and `Accounts.GetUser`.

`AccountProperties` relates several requests to each other.

The reset fields obey one invariant: a record's reset token and its expiry are set together and
cleared together (`Accounts.ResetPairConsistent`). Every operation preserves it, and it is part
of the store's `Valid()`.

A token is issued for one hour. It redeems at a time `t` exactly when `t` is less than one hour
after issue, provided no record held the same token when it was issued, and unless a later forgot-password request for the same account has replaced it; after
such a request the earlier token fails at any time, provided no other record holds it. Once redeemed, a token fails at the next
reset, provided no other record holds the same token (see "Left out").

Email uniqueness is **not** an invariant of the table. Register and admin-add refuse a known
email, but both update controllers assign the email from the request without any uniqueness check.
`AccountProperties.ProfileUpdateCanDuplicateEmail` exhibits two records left with one email.
After that, a login finds only the first of them.

In places the code behaves differently from what a careful account service would do. The model
follows the code:

- Login answers "email not found" and "invalid credentials" separately, and forgot-password
  reveals an unknown email. These are `Replies.Failure.EmailNotFound` and
  `Replies.Failure.InvalidCredentials`. A single answer for both cases would not tell a caller
  which emails have accounts.
- Redeeming a reset token is a find followed by a separate save, not an atomic find-and-clear.
  Two concurrent redemptions of one token can both succeed. The sequential model cannot express
  the race.
- A new account's role and status are whatever the record schema gives by default. The
  controller does not set them.
- The user listing drops only the password field, so pending reset tokens and their expiries
  are part of what it returns (`Accounts.Listed`).

## Model

| member | source | states |
|---|---|---|
| `Hex.Encode` | controllers/authController.js:143 | the token text has two lower-case hexadecimal digits per random byte (40 characters for 20 bytes) |
| `Hex.DecodeEncode` | controllers/authController.js:143 | the hexadecimal text of a byte string reads back to exactly those bytes |
| `Hex.EncodeInjective` | controllers/authController.js:143 | distinct random bytes give distinct reset tokens |
| `EmailFormat.ValidEmailIsPattern` | controllers/authController.js:357-358 | every string the email check accepts is in the language of `^[^\s@]+@[^\s@]+\.[^\s@]+$` |
| `EmailFormat.PatternIsValidEmail` | controllers/authController.js:357-358 | every string of the form local `@` host `.` tld with three non-empty runs of non-space, non-`@` characters passes the check |
| `EmailFormat.ValidEmailMatchesPattern` | controllers/authController.js:357-358 | the email check and the regular expression accept the same strings |
| `EmailFormat.AcceptedExamples` | controllers/authController.js:357-358 | "a@b.c" and "a@b..c" pass the email check |
| `EmailFormat.DotAtDomainEdgeAccepted` | controllers/authController.js:357-358 | "a@.b.c" and "a@b.c." pass the email check: a dot is itself a character of `[^\s@]`, so it may open or close the domain when another dot lies between |
| `EmailFormat.RejectedExamples` | controllers/authController.js:357-358 | an empty local part, a domain whose only dot is right after the `@` or at its end, no dot, a second `@`, or a space each fail the email check |
| `Requests.FirstMissing` | controllers/authController.js:15-23 | register reports nothing exactly when name, email and password are all present; otherwise it reports a missing field, and every field checked before that one is present |
| `Requests.CheckUserUpdate` | controllers/authController.js:352-367 | the user update rejects a missing name or email first, then an email outside the regex language, then a status other than absent, 0 or 1; it accepts exactly when none of these applies |
| `Accounts.FindOne` | controllers/authController.js:72 | the lookup returns a position whose record matches the filter and no earlier record matches; it returns nothing exactly when no record matches |
| `Accounts.Select` | controllers/authController.js:210 | `find` returns exactly the records that match the filter, each as many times as the table holds it, and no other record |
| `Accounts.Create` | controllers/authController.js:14-41 | the first missing field is reported and a known email is refused, and either failure leaves the table unchanged; success happens exactly when all fields are present and the email is new, and it appends one record holding the given id, name and email, the digest of the password (not the password), the default role and status, the verified flag, and no reset pair; distinct ids, consistent reset pairs and distinct tokens are preserved |
| `Accounts.Login` | controllers/authController.js:64-101 | a missing email or password is rejected before any lookup; "not found" is returned exactly when no record has the email; otherwise the login succeeds exactly when the first such record's digest accepts the password, returning that record's id, name, email and role, and it fails with "invalid credentials" otherwise; the table is only read |
| `Accounts.Forgot` | controllers/authController.js:127-149 | a missing or unknown email changes nothing; for a known email, the first record with it gets the token and an expiry of now + 3 600 000 ms, replacing any earlier pair, and no other field or record changes; consistent pairs are preserved, and distinct tokens are too when the new token is fresh |
| `Accounts.Reset` | controllers/authController.js:171-189 | the reset succeeds exactly when some record holds the token with an expiry strictly after now, and on failure nothing changes; on success the first such record gets the digest of the new password and loses both reset fields, and nothing else changes; consistent pairs and distinct tokens are preserved |
| `Accounts.UpdateProfile` | controllers/authController.js:230-248 | an unknown id changes nothing; otherwise that record's name and email become the request's values, its digest changes only when a password is given, and its role, status, verified flag and reset fields are kept; no other record changes |
| `Accounts.UpdateUser` | controllers/authController.js:352-393 | a failed check or an unknown id changes nothing; otherwise name and email are overwritten, the digest changes only when a password is given and the status only when one is given, while role, verified flag and reset fields are kept; no other record changes |
| `Accounts.ListUsers` | controllers/authController.js:210-217 | the listing is exactly the role-0 records with the password field removed, one entry per record `find` returns and in its order, and "no users found" is returned exactly when there is no such record |
| `Accounts.WithoutPasswords` | controllers/authController.js:210 | `select("-password")` keeps one entry per record, in order, each equal to its record with the digest dropped |
| `Accounts.GetUser` | controllers/authController.js:327-336 | the query returns the record with that id (when ids are distinct, that very record) and fails exactly when no record has it |
| `AccountProperties.LoginAfterCreate` | controllers/authController.js:72-101 | after a successful register or admin-add, a login with the same email and password returns the new account's id, name, email and default role |
| `AccountProperties.CreateTwiceConflicts` | controllers/authController.js:26-32 | registering an email that was just registered is refused with "already registered" and leaves the table unchanged |
| `AccountProperties.TokenRedeemableForOneHour` | controllers/authController.js:143-147 | a token issued at `now`, when no record held it before, redeems at time `t` exactly when `t < now + 3 600 000` |
| `AccountProperties.ForgotSupersedesEarlierToken` | controllers/authController.js:146-147 | a new forgot-password request makes the account's earlier token fail at any time, provided no other record holds that token |
| `AccountProperties.RedeemAtMostOnce` | controllers/authController.js:185-189 | after a successful reset, every further reset with the same token fails and changes nothing |
| `AccountProperties.LoginAfterReset` | controllers/authController.js:184-189 | after a reset, a login to that account succeeds with the new password and with no other |
| `AccountProperties.ProfileUpdateCanDuplicateEmail` | controllers/authController.js:237-238 | a profile update can give a second record an email that is already in the table |
| `AccountProperties.RegisterThenLogin` | controllers/authController.js:14-101 | after registering an email that was new, a login with a different password is refused as "invalid credentials" and the registered password logs into the new account |
| `AccountProperties.ForgotForAccount` | controllers/authController.js:130-147 | a forgot-password request for an account, with a token no record holds, succeeds and makes that account the one the live token finds during the next hour |
| `AccountProperties.RedeemForAccount` | controllers/authController.js:171-189 | redeeming that live token makes the new password log in and the old one fail, and the same token is refused afterwards |
| `AccountProperties.AliceScenario` | controllers/authController.js:10-205 | Alice registers; a wrong password fails and "pw1" logs in; she requests a reset and redeems it within the hour with "pw2"; after that "pw1" fails, "pw2" logs in, and the same token is refused |
| `AuthController.UserStore.constructor` | controllers/authController.js:1-6 | the store starts with an empty collection and an empty mail log, and it satisfies its invariant |
| `AuthController.UserStore.CreateAccount` | controllers/authController.js:15-41 | the shared body of register and admin-add (field checks, email lookup, hash, append) leaves the reply and table that `Accounts.Create` gives for the requested verified flag, keeps the invariant, and sends no mail |
| `AuthController.UserStore.Register` | controllers/authController.js:12-46 | leaves the reply and table that `Accounts.Create` gives for an unverified account, keeps the invariant, and sends no mail; it delegates to `CreateAccount` |
| `AuthController.UserStore.AddUserByAdmin` | controllers/authController.js:270-309 | leaves the reply and table that `Accounts.Create` gives for a verified account, keeps the invariant, and sends no mail; it delegates to `CreateAccount` |
| `AuthController.UserStore.ForgotPassword` | controllers/authController.js:125-154 | leaves the reply and table of `Accounts.Forgot`, with the token being the hex text of the random bytes; on success it mails the reset link `CLIENT_URL/reset-password/<token>` to the record's email; it keeps the invariant |
| `AuthController.UserStore.ResetPassword` | controllers/authController.js:168-195 | leaves the reply and table of `Accounts.Reset`; on success it mails a password-changed notice to the record's email; it keeps the invariant |
| `AuthController.UserStore.UpdateProfile` | controllers/authController.js:227-258 | leaves the reply and table of `Accounts.UpdateProfile` and keeps the invariant |
| `AuthController.UserStore.UpdateUser` | controllers/authController.js:349-404 | leaves the reply and table of `Accounts.UpdateUser` and keeps the invariant |

## Left out

- `logoutController` (clears a cookie) and `testController` (a fixed string) are not modelled, because they have no logic over the table.
- `routes/authRoute.js` and its sign-in and admin middleware are not modelled, because they are wiring. The middleware is not part of this model.
- `generateTokenAndSetCookie` (JWT signing and the cookie) is not modelled, because it lives in a helper outside this model. A successful login returns the identity the token would be issued for.
- The internals of `hashPassword` and `comparePassword` (bcrypt) are not modelled, because they live in a helper outside this model. They are abstract functions.
- The HTML of `forgotPasswordEmail` and `resetPasswordEmail` is not modelled. Only the recipient, the name and the reset link are logged.
- `getFormattedDateTime` is not modelled: the date and time in the password-changed mail are clock output.
- A mail that fails to send is not modelled: the `catch` would answer 500 after the save.
- `catch` blocks and HTTP status codes are not modelled. The model does not cover a failing save, a failing hash or a malformed `_id` that makes a query throw.
- Reply messages and reply bodies are not modelled beyond the failure kind and the login and query payloads.
- Concurrency is not modelled. The reset path finds the record and saves it in two separate steps, and a sequential model cannot show two redemptions racing.
- `models/UserModel.js` is not part of this model. Its defaults are assumed: role 0, status 0, not verified. Its validators and indexes (required fields, a possible unique index on email) are not modelled.
- Request fields are modelled as a string or absent (a status as an integer or absent). Objects and arrays in the text fields are not modelled. An object such as `{"$ne": null}` in `email` is truthy and reaches `findOne({ email })` as a query operator, matching any record that has an email. `null`, numbers, booleans and non-numeric statuses are not modelled either.
- Accounts.Reset: a reset request without a password field is not modelled (the password is a string argument), because its outcome depends on the `hashPassword` helper.
- Accounts.Select: the contract states which records are returned and how many times each one appears, not that they come in table order.
- Accounts.ListUsers: the order of the listing is the order `Accounts.Select` returns, which its contract does not pin to table order (see the line above).
- Password.Binding: bcrypt compares only the first 72 bytes of a password, so a digest also accepts any password sharing those bytes with the original. `Binding` leaves this truncation out, and the lemmas that assume it (`AccountProperties.LoginAfterReset`, `RegisterThenLogin`, `RedeemForAccount`, `AliceScenario`) hold only when no two passwords involved share their first 72 UTF-8 bytes.
- Accounts.Login: the reply does not carry the session token (see `generateTokenAndSetCookie` above).
- AccountProperties.TokenRedeemableForOneHour: the contract assumes no record held the token when it was issued. If another record held it with a later expiry, a reset with it would still succeed on that record after the hour. Tokens come from 160 random bits, and the model does not prove that they never collide.
- AccountProperties.ForgotSupersedesEarlierToken: the contract assumes no two records hold the same pending token. If another record held the earlier token, a reset with it would still succeed on that record. Tokens come from 160 random bits, and the model does not prove that they never collide.
- AccountProperties.RedeemAtMostOnce: the contract assumes no two records hold the same pending token. Tokens come from 160 random bits, and the model does not prove that they never collide.
