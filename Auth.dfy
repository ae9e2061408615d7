/** The authentication domain service (package auth).

    The service is written against three provider interfaces. Login and
    IsAdmin only read through them, so they are functions of what the
    providers answered: `user` is UserProvider.User's answer for the email,
    `app` is AppProvider.App's answer for the application id, and `reply` is
    UserProvider.IsAdmin's answer for the user id. Any implementation of the
    interfaces may give any of these answers. RegisterNewUser writes through
    UserSaver, whose one implementation is the sqlite Storage, so it is a
    method on that store.

    Each collaborator error is classified once: a storage "not found" or
    "exists" sentinel becomes the matching auth sentinel, and every other
    error is passed up unchanged. */
module Auth {
  import opened Errors
  import opened Models
  import Bcrypt
  import Jwt
  import Sqlite

  /** The service as NewAuth builds it; only the token lifetime (a
      time.Duration, in nanoseconds) affects its answers. */
  datatype Service = Service(tokenTTL: int)

  /** How Login classifies an error of the user lookup. */
  function UserLookupError(e: Error): Error
  {
    if e == StoreUserNotFound then InvalidCredentials else e
  }

  /** How Login classifies an error of the application lookup. */
  function AppLookupError(e: Error): Error
  {
    if e == StoreAppNotFound then InvalidAppID else e
  }

  /** How RegisterNewUser classifies an error of SaveUser. */
  function SaveError(e: Error): Error
  {
    if e == StoreUserExists then UserExists else e
  }

  /** How IsAdmin classifies an error of the admin query: an unknown
      application is tested first, then an unknown user. */
  function AdminLookupError(e: Error): Error
  {
    if e == StoreAppNotFound then InvalidAppID
    else if e == StoreUserNotFound then InvalidUserID
    else e
  }

  /** Auth.Login at instant `now` (nanoseconds since the epoch). */
  function Login(svc: Service, user: Result<User>, password: string, app: Result<App>, now: int): (r: Result<Jwt.Token>)
    ensures r.Ok? <==> user.Ok? && Bcrypt.CompareHashAndPassword(user.value.passHash, password) && app.Ok?
    ensures r.Ok? ==> r.value.Signed? && r.value.alg == Jwt.HS512
    ensures r.Ok? ==> Jwt.Parse(r.value, app.value.secret) ==
                      Some(Jwt.Claims(user.value.email, Jwt.Unix(now + svc.tokenTTL), user.value.id, app.value.id))
    ensures r.Err? ==> r.value == Jwt.NoToken
    ensures user.Err? ==> r.error == UserLookupError(user.error)
    ensures user.Ok? && !Bcrypt.CompareHashAndPassword(user.value.passHash, password) ==> r.error == InvalidCredentials
    ensures user.Ok? && Bcrypt.CompareHashAndPassword(user.value.passHash, password) && app.Err? ==>
              r.error == AppLookupError(app.error)
  {
    match user
    case Err(_, e) => Err(Jwt.NoToken, UserLookupError(e))
    case Ok(u) =>
      if !Bcrypt.CompareHashAndPassword(u.passHash, password) then Err(Jwt.NoToken, InvalidCredentials)
      else
        match app
        case Err(_, e) => Err(Jwt.NoToken, AppLookupError(e))
        case Ok(a) =>
          match Jwt.NewToken(u, a, svc.tokenTTL, now)
          case Err(_, e) => Err(Jwt.NoToken, e)
          case Ok(token) => Ok(token)
  }

  /** Auth.IsAdmin: the provider's boolean on success, `false` and a
      classified error otherwise. */
  function IsAdmin(reply: Result<bool>): (r: Result<bool>)
    ensures r.Ok? <==> reply.Ok?
    ensures r.Ok? ==> r.value == reply.value
    ensures r.Err? ==> !r.value && r.error == AdminLookupError(reply.error)
  {
    match reply
    case Ok(isAdmin) => Ok(isAdmin)
    case Err(_, e) => Err(false, AdminLookupError(e))
  }

  /** What RegisterNewUser does, given the users table and the next rowid
      before the call (`users`, `nextId`) and after it (`users'`, `nextId'`):
      a hashing failure answers 0 with the hasher's error and leaves both
      alone; otherwise the table changes as SaveUser changes it, and the
      answer is SaveUser's, with 0 and a classified error on failure. */
  ghost predicate Registers(users: map<int, User>, nextId: int, users': map<int, User>, nextId': int,
                            email: string, password: string, entropy: Bcrypt.Entropy,
                            fault: Sqlite.SaveFault, r: Result<int>)
  {
    var hashed := Bcrypt.GenerateFromPassword(password, entropy);
    if hashed.Err? then
      r == Err(0, hashed.error) && users' == users && nextId' == nextId
    else
      var saved := Sqlite.SaveOutcome(fault, users, email, nextId);
      && (if Sqlite.Inserts(fault, users, email)
          then users' == users[nextId := User(nextId, email, hashed.value)] && nextId' == nextId + 1
          else users' == users && nextId' == nextId)
      && r == (if saved.Ok? then Ok(saved.value) else Err(0, SaveError(saved.error)))
  }

  /** Auth.RegisterNewUser: hash the password, then save the user. A
      hashing failure (a password over 72 bytes, an exhausted random source)
      returns before the store is touched. */
  method RegisterNewUser(store: Sqlite.Storage, email: string, password: string,
                         entropy: Bcrypt.Entropy, fault: Sqlite.SaveFault) returns (r: Result<int>)
    requires store.Valid()
    modifies store
    ensures store.Valid()
    ensures store.apps == old(store.apps) && store.admins == old(store.admins)
    ensures Registers(old(store.users), old(store.nextId), store.users, store.nextId,
                      email, password, entropy, fault, r)
  {
    var hash := Bcrypt.GenerateFromPassword(password, entropy);
    if hash.Err? {
      return Err(0, hash.error);
    }
    var saved := store.SaveUser(email, hash.value, fault);
    match saved {
      case Err(_, e) => return Err(0, SaveError(e));
      case Ok(id) => return Ok(id);
    }
  }

  /** An unknown email and a wrong password are answered identically, so a
      caller cannot tell which accounts exist. */
  lemma LoginHidesUnknownEmail(svc: Service, known: User, password: string, wrong: string,
                               app: Result<App>, app': Result<App>, now: int)
    requires !Bcrypt.CompareHashAndPassword(known.passHash, wrong)
    ensures Login(svc, Err(ZeroUser, StoreUserNotFound), password, app, now)
         == Login(svc, Ok(known), wrong, app', now)
         == Err(Jwt.NoToken, InvalidCredentials)
  {
  }

  /** Once the user lookup or the password check fails, the application's
      answer has no bearing on the result: the application is not looked up. */
  lemma LoginStopsBeforeAppLookup(svc: Service, user: Result<User>, password: string,
                                  app: Result<App>, app': Result<App>, now: int)
    requires user.Err? || !Bcrypt.CompareHashAndPassword(user.value.passHash, password)
    ensures Login(svc, user, password, app, now) == Login(svc, user, password, app', now)
    ensures Login(svc, user, password, app, now).Err?
  {
  }
}
