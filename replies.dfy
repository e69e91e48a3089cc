/** What a controller answers: success with a payload, or one of the failures the controllers
    report in their `{ success: false, message }` replies. Message texts and HTTP status codes
    are not part of the model; each distinct message becomes one constructor. */
module Replies {

  datatype Failure =
    | NameRequired               // register, admin-add
    | EmailRequired              // register, admin-add, forgot-password
    | PasswordRequired           // register, admin-add
    | EmailAndPasswordRequired   // login
    | NameAndEmailRequired       // user update
    | InvalidEmailFormat         // user update
    | InvalidStatus              // user update
    | EmailAlreadyRegistered     // register, admin-add
    | EmailNotFound              // login, forgot-password
    | InvalidCredentials         // login
    | InvalidOrExpiredToken      // reset-password
    | AccountNotFound            // profile update, user update, single-user query
    | NoUsersFound               // user listing

  datatype Outcome<+T> = Ok(value: T) | Fail(failure: Failure)
}
