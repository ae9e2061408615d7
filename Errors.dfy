/** Error kinds and the Go-style (value, error) result shared by every layer.

    The storage package and the auth service each declare sentinel errors;
    every other failure (a driver error, a hashing error) is known only by its
    message and is carried by `Failure`. */
module Errors {

  datatype Option<T> = None | Some(value: T)

  datatype Error =
    | StoreUserNotFound      // storage.ErrUserNotFound
    | StoreAppNotFound       // storage.ErrAppNotFound
    | StoreUserExists        // storage.ErrUserExists
    | InvalidCredentials     // auth.ErrInvalidCredentials
    | InvalidAppID           // auth.ErrInvalidAppID
    | InvalidUserID          // auth.ErrInvalidUserID
    | UserExists             // auth.ErrUserExists
    | Failure(cause: string) // any other error, by its message

  /** The text of each error, as `err.Error()` gives it. A failure's text
      is its cause; the storage and the auth sentinel for a duplicate email
      read the same, and they are the only sentinels whose texts coincide. */
  function Message(e: Error): (r: string)
    ensures e.Failure? ==> r == e.cause
    ensures !e.Failure? && r == "user already exists" <==> e == StoreUserExists || e == UserExists
  {
    match e
    case StoreUserNotFound => "user not found"
    case StoreAppNotFound => "application not found"
    case StoreUserExists => "user already exists"
    case InvalidCredentials => "invalid credentials"
    case InvalidAppID => "invalid application ID"
    case InvalidUserID => "invalid user ID"
    case UserExists => "user already exists"
    case Failure(cause) => cause
  }

  /** Two sentinels with the same text are the same sentinel, apart from the
      two duplicate-email sentinels. */
  lemma SentinelMessagesDistinct(e: Error, e': Error)
    requires !e.Failure? && !e'.Failure? && Message(e) == Message(e')
    ensures e == e' || ({e, e'} <= {StoreUserExists, UserExists})
  {
  }

  /** A Go `(value, err)` pair. On failure Go still returns a value, the zero
      value of its type, and `Err` keeps it. */
  datatype Result<T> = Ok(value: T) | Err(value: T, error: Error)
}

/** The records the storage returns (package models). */
module Models {

  /** A row of the `users` table. The password hash is bcrypt's ASCII text. */
  datatype User = User(id: int, email: string, passHash: string)

  /** A row of the `apps` table; `secret` is the application's signing key. */
  datatype App = App(id: int, name: string, secret: string)

  const ZeroUser := User(0, "", "")
  const ZeroApp := App(0, "", "")
}
