# sso: a Dafny model of the identity provider's core

The system registers users, authenticates them, and issues signed session
tokens for a calling application. It also answers whether a user is an
administrator. This project models four parts of it and proves what each one
promises:

- the authentication service (`Auth`), covering login, registration and the admin check, and how it sorts collaborator errors into a few error kinds;
- the sqlite persistence gateway (`Sqlite.Storage`), a class over the `users`, `apps` and `admins` tables with an id counter;
- the gRPC adapter (`Server`), covering its input guards and how it maps error kinds to status codes;
- token construction (`Jwt`), covering the claims `{email, uid, app_id, exp}` and the signature under the application's secret.

`Sso` wires these together the way the application does: one storage serves
as every provider. It proves end-to-end properties, such as "register, then
log in, and the token carries that user and application".

Modelling choices:

- **Errors.** All errors form one datatype of kinds (`Errors.Error`):
  - the storage sentinels;
  - the service sentinels;
  - `Failure(cause)` for any other error, known only by its message.
- **Results.** A Go `(value, err)` pair is `Result<T>`. `Err` keeps the zero value Go returns next to the error, for example `""`, `0` and `false`.
- **Service functions.** `Auth.Login` and `Auth.IsAdmin` only read. They are written against the provider interfaces, so they are functions of what the providers answered. Any implementation may give any answer, which makes every branch of the service reachable apart from the token error.
- **Registration.** `Auth.RegisterNewUser` writes through `SaveUser`, so it is a method on the storage class.
- **Handlers.** A handler gets the service's answer for the request's own fields. "Rejected without calling the service" means two things:
  - the reply does not depend on that answer (the `...RejectionIgnoresService` lemmas);
  - `Sso.RegisterRpc` leaves the store untouched when the guard rejects.
- **Validation.** The generated `Validate()` is an arbitrary function parameter.
- **Outside inputs as parameters:**
  - the current time: nanoseconds since the epoch;
  - the token lifetime: a `time.Duration` in nanoseconds;
  - the bcrypt salt or entropy failure;
  - the driver's failures: `Option<string>` for a query, `SaveFault` for the insert.
- **Hashing and signing.** bcrypt is a stand-in. A hash of a password verifies against that password and against no other. Hashing fails for a password over 72 bytes (bcrypt's `ErrPasswordTooLong`, which the handler reports as Internal) and when the random source fails. HMAC-SHA512 is symbolic: a MAC is the term of its algorithm, key and claims. So `Jwt.Parse`, the check a token consumer makes, accepts a token only under the key that signed it.

Three behaviours of the code are easy to miss:

- The admin query is a `SELECT EXISTS(...)`, which always yields one row. So an unknown user gets `false`, not an invalid-user error (`Sqlite.Storage.IsAdmin`, `Sso.IsAdminRpc`). The no-row branch of the storage and the not-found branches of the service's `IsAdmin` cannot fire with this storage. The service model still covers those branches for any provider.
- An unknown application at login is reported as `Internal` with the message "invalid application ID", not as a client error (`Sso.UnknownAppIsInternal`).
- Signing does not fail: HMAC accepts any key, the empty one included. The service's branch for a token error is unreachable.

## Model

| member | source | states |
|---|---|---|
| `Errors.Message` | internals/domain/services/auth/auth.go:23-26 | `err.Error()`: a driver or hashing failure reads as its own cause; the storage and the auth duplicate-email sentinels both read "user already exists", and no other sentinel does |
| `Errors.SentinelMessagesDistinct` | internals/storage/storage.go:6-8 | two sentinels with the same text are the same sentinel, except the storage and auth duplicate-email pair |
| `Auth.Login` | internals/domain/services/auth/auth.go:71-114 | a token comes back exactly when the user was found, the password verifies and the app was found; it is HS512 and parses under the app secret to {user email, exp = now + TTL, user id, app id}; on error the token is empty; user-not-found and a wrong password both give invalid credentials, app-not-found gives invalid app ID, other errors pass through |
| `Auth.LoginHidesUnknownEmail` | internals/domain/services/auth/auth.go:74-91 | an unknown email, with any password, and a wrong password for a known user give the identical result, invalid credentials with an empty token |
| `Auth.LoginStopsBeforeAppLookup` | internals/domain/services/auth/auth.go:74-98 | after a user-lookup or password failure, the result fails and does not depend on the app provider's answer |
| `Auth.IsAdmin` | internals/domain/services/auth/auth.go:145-168 | success passes the provider's boolean through; on error the value is false, app-not-found (tested first) becomes invalid app ID, user-not-found becomes invalid user ID, anything else passes through |
| `Auth.RegisterNewUser` | internals/domain/services/auth/auth.go:118-141 | a hash failure (a password over 72 bytes, a failed random source) returns 0 with the hasher's error and leaves the store as it was; otherwise the store changes exactly as SaveUser changes it, a success returns exactly the saver's id, and an error returns 0 with a duplicate email turned into user-exists |
| `Bcrypt.CompareHashAndPassword` | internals/domain/services/auth/auth.go:87 | a hash matches a password exactly when it is the stand-in hash of that password under the salt the hash carries; a malformed hash matches nothing |
| `Bcrypt.GenerateFromPassword` | internals/domain/services/auth/auth.go:121-125 | hashing succeeds exactly when the password is at most 72 long and the random source yields a salt; a longer password gets bcrypt's password-too-long error, checked before the salt is drawn; a produced hash verifies against its password and against no other password |
| `Jwt.NewToken` | internals/lib/jwt/jwt.go:10-17 | the token is signed with HS512; under app.Secret it parses to {email = user.Email, exp = Unix(now + duration), uid = user.ID, app_id = app.ID}; under any other key it does not parse |
| `Jwt.ExpWithinOneSecond` | internals/lib/jwt/jwt.go:13 | the exp claim a token issued at `now` parses to under the app secret is within one second of Unix(t + duration) for every instant t up to one second after `now` |
| `Jwt.Parse` | tests/auth_register_login_test.go:42-45 | the consumer's check: a token parses under a key exactly when it is what signing its claims under that key gives, and it then yields those claims |
| `Sqlite.Storage.SaveUser` | internals/storage/sqlite/sqlite.go:37-61 | keeps emails unique and ids below the counter. With a fresh email and a statement that runs, it adds exactly one row (the counter id, the email, the hash) and advances the counter; otherwise no row changes. Apps and admins never change. Answers SaveOutcome |
| `Sqlite.SaveOutcome` | internals/storage/sqlite/sqlite.go:46-60 | SaveUser's answer from the table before the call: every error carries the zero id, and every error other than user-exists is a driver failure |
| `Sqlite.SaveOutcomeMeaning` | internals/storage/sqlite/sqlite.go:46-60 | SaveUser succeeds exactly when it inserted and LastInsertId worked, and then answers the new row's id; every error carries 0; user-exists arises exactly when the statement ran and the email was taken |
| `Sqlite.RowByEmail` | internals/storage/sqlite/sqlite.go:67 | the row found is a row of the table and has the requested email |
| `Sqlite.FindAfterInsert` | internals/storage/sqlite/sqlite.go:38-74 | after a row with a new email is inserted, the emails stay unique and a lookup of that email finds exactly the inserted row |
| `Sqlite.Storage.User` | internals/storage/sqlite/sqlite.go:64-81 | with no driver error it succeeds iff some row has the email, and returns that row; no row gives user-not-found and the zero User; a driver error passes its message up with the zero User |
| `Sqlite.Storage.IsAdmin` | internals/storage/sqlite/sqlite.go:84-105 | with no driver error the answer is true iff the id is in admins and is a user id, and an unknown user gets false; the only error is a driver error, never user-not-found |
| `Sqlite.Storage.App` | internals/storage/sqlite/sqlite.go:108-125 | with no driver error it succeeds iff the id is in apps, and returns the row with that id; no row gives app-not-found and the zero App; a driver error passes its message up |
| `Sqlite.Storage.constructor` | internals/storage/sqlite/sqlite.go:26-34 | a valid database with the given apps and admins and no users, whose next id is 1 |
| `Server.Login` | internals/grpc/auth/server.go:44-65 | a Validate() failure is InvalidArgument with its message; app id 0 is InvalidArgument "AppID is required"; a response comes back exactly when both guards pass and the service succeeded, and it carries the service's token; invalid credentials becomes InvalidArgument, every other error becomes Internal with the error's message |
| `Server.LoginRejectionIgnoresService` | internals/grpc/auth/server.go:45-51 | a login the guards reject gets InvalidArgument and the same reply whatever the service would answer |
| `Server.Register` | internals/grpc/auth/server.go:68-85 | a Validate() failure is InvalidArgument; a response comes back exactly when validation passes and the service succeeded, and it carries the service's id; only invalid credentials becomes AlreadyExists, and everything else, user-exists included, becomes Internal with the error's message |
| `Server.RegisterRejectionIgnoresService` | internals/grpc/auth/server.go:69-71 | a registration failing Validate() gets InvalidArgument and the same reply whatever the service would answer |
| `Server.RegisterReportsDuplicateAsInternal` | internals/grpc/auth/server.go:74-79 | as written, the service's user-exists error is Internal "user already exists"; the corrected handler gives AlreadyExists |
| `Server.RegisterCorrected` | internals/grpc/auth/server.go:74-79 | same guard and success path as Register; a user-exists error is AlreadyExists "user already exists", and every other service error is Internal with the error's message |
| `Server.IsAdmin` | internals/grpc/auth/server.go:88-105 | a user id of 0 or less is InvalidArgument "invalid user id"; a response comes back exactly when the id is positive and the service succeeded, and it carries the service's boolean; invalid credentials becomes NotFound, and other errors become Internal with the error's message |
| `Server.IsAdminRejectionIgnoresService` | internals/grpc/auth/server.go:89-91 | a query with a user id of 0 or less gets InvalidArgument and the same reply whatever the service would answer |
| `Server.IsAdminReportsUnknownUserAsInternal` | internals/grpc/auth/server.go:94-99 | as written, the service's invalid-user-ID error is Internal; the corrected handler gives NotFound |
| `Server.IsAdminCorrected` | internals/grpc/auth/server.go:94-99 | same guard and success path as IsAdmin; an invalid-user-ID error is NotFound "user not found", and every other service error is Internal with the error's message |
| `Sso.LoginRpc` | internals/app/app.go:22 | end to end, a token comes back exactly when the guards pass, the queries do not fail, the email is registered, the password verifies and the app exists; the token parses under that app's secret to the request's email and app id and the stored user's id; an unregistered email gets InvalidArgument "email or password is invalid" |
| `Sso.IsAdminRpc` | internals/app/app.go:22 | end to end, a positive id with no driver error gets `id in admins && id is a user id`, so an unknown user gets false; the reply is never NotFound |
| `Sso.RegisterRpc` | internals/grpc/auth/server.go:68-85 | a rejected request does not reach the service and leaves the store unchanged; otherwise the store and the answer change exactly as RegisterNewUser's contract says (a hashing failure or a driver failure before the insert leaves the table alone and answers the failure), and the reply is Register's mapping of that answer; a password over 72 bytes gets Internal with bcrypt's password-too-long message and no change; with a password of at most 72, a salt and a healthy driver, a duplicate email gets Internal "user already exists" with no change, and a fresh email gets the new id and exactly one new row, which a lookup of the email then returns |
| `Sso.LoginAfterRegistration` | tests/auth_register_login_test.go:14-33 | a user whose stored hash GenerateFromPassword made from a password, who logs in with that password to an existing app, gets a token whose claims are that email, user id and app id |
| `Sso.WrongPasswordLooksLikeUnknownEmail` | internals/domain/services/auth/auth.go:74-90 | end to end, a wrong password for a registered user and an unregistered email get the same reply, InvalidArgument "email or password is invalid" |
| `Sso.UnknownAppIsInternal` | internals/domain/services/auth/auth.go:93-98 | end to end, correct credentials with an unknown app id get Internal "invalid application ID" |
| `Sso.DoubleRegistration` | tests/auth_double_register_test.go:13-40 | the first registration gets the new id. The second gets Internal "user already exists" (AlreadyExists under the corrected handler) and changes nothing: the store ends with exactly the first registration's row added, the counter advanced once, and apps and admins as they were. Logging in afterwards still yields a token for the first id |
| `Sso.RegisterLoginScenario` | tests/auth_register_login_test.go:14-55 | on a fresh database with app 2, registering a@x.com gets id 1; logging in gets a token that parses under app 2's secret to {a@x.com, exp, 1, 2}; a wrong password gets InvalidArgument |

## Left out

- Logging (every `slog` call and the logger handlers): these only format output and do I/O.
- `sl.ErrUpLevel`, which takes the operation name and the message of an error. Its source is not modelled. It receives only text, such as `ErrInvalidCredentials.Error()` or the driver's `err.Error()`, so error identity survives it only if it maps the text back to the sentinels. The model assumes it does: each error keeps its kind across layers. Without that, every `errors.Is` test in the service and the handlers is false and every error reaches the client as Internal. `Auth.LoginHidesUnknownEmail`, `Sso.WrongPasswordLooksLikeUnknownEmail` and `Server.Login`'s InvalidArgument reply for bad credentials hold only under this assumption, and so do the other error classifications. Status messages are the error's own text, without the operation name.
- `context.Context` deadlines and cancellation, and goroutine-per-request concurrency. Two concurrent registrations of one email are not modelled; calls happen one at a time.
- The SQL driver, statement preparation and the sqlite error-code inspection. A driver failure is a parameter of each operation, and the uniqueness violation is decided from the table.
- `NewStorage`'s `sql.Open` and the migrations. The constructor stands for a database already migrated, with apps and admin rows provisioned and no users yet; `NewStorage` opens whatever file is at the storage path, which may already hold users, and every lemma other than the fresh-database scenario takes any valid store.
- bcrypt itself: its cost and its real digest. The stand-in keeps only the verify-after-hash property and rejection of other passwords.
- Bcrypt.CompareHashAndPassword: its rejection of every other password is stronger than bcrypt, whose comparison reads only the first 72 bytes of the offered password, so a real hash also matches a longer password that shares those bytes. `Sso.WrongPasswordLooksLikeUnknownEmail` relies on the stronger stand-in through `wrong != password`.
- Bcrypt.GenerateFromPassword: the 72-byte limit is applied to the length of the password as a character sequence, which equals its UTF-8 byte length only for ASCII passwords.
- HMAC-SHA512 and the JWT compact serialisation. The token is a symbolic term.
- Jwt.NewToken: "under any other key it does not parse" is stronger than HMAC-SHA512. HMAC pads a key shorter than its 128-byte block with zero bytes, so "k" and "k" followed by a zero byte sign identically, and it replaces a key longer than 128 bytes by its SHA-512 digest.
- The consumer's check of `exp`, which happens downstream, is not part of `Jwt.Parse`.
- `time.Now()`, which the model replaces by the parameter `now`.
- Integer widths: unbounded integers stand for int64 user ids, int32 app ids and the time.Duration arithmetic, so no wrap-around is modelled. Rowid exhaustion is not modelled either.
- What the generated `Validate()` checks, such as "value length must be". It is an arbitrary function.
- Configuration loading, the migrator CLI, process bootstrap, gRPC server start and stop, and the test suite's client setup: these are plumbing around the core.

## Findings

| source | as written | input that shows it | evidently intended | confidence | as-written member | corrected member |
|---|---|---|---|---|---|---|
| internals/grpc/auth/server.go:75 | Register compares the service error with auth.ErrInvalidCredentials, which RegisterNewUser never returns | registering an email that is already stored: the service answers user-exists, the handler replies Internal "user already exists" | a duplicate email is AlreadyExists "user already exists" | medium, not executed (the test only checks the message substring, which both versions satisfy) | `Server.RegisterReportsDuplicateAsInternal` | `Server.RegisterCorrected` |
| internals/grpc/auth/server.go:95 | IsAdmin compares the service error with auth.ErrInvalidCredentials, which the service's IsAdmin does not produce from storage errors | a provider that reports user-not-found: the service answers invalid user ID, the handler replies Internal "invalid user ID" | an unknown user is NotFound "user not found" | medium, not executed (no test exercises it) | `Server.IsAdminReportsUnknownUserAsInternal` | `Server.IsAdminCorrected` |
