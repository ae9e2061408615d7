/** The assembled system (package app): one sqlite Storage serves as the
    user saver, the user provider and the app provider of the service, and
    the service stands behind the gRPC handlers. The lemmas and scenarios
    here follow a request from the handler down to the tables and back. */
module Sso {
  import opened Errors
  import opened Models
  import Bcrypt
  import Jwt
  import Sqlite
  import Auth
  import Server

  /** The Login RPC. `userError` and `appError` are driver failures of the
      two queries, if any. */
  function LoginRpc(store: Sqlite.Storage, svc: Auth.Service, req: Server.LoginRequest,
                    validate: Server.LoginRequest -> Option<string>, now: int,
                    userError: Option<string>, appError: Option<string>): (r: Server.Reply<Jwt.Token>)
    reads store
    requires store.Valid()
    ensures r.Response? <==>
              && Server.LoginCallsService(req, validate)
              && userError.None? && appError.None?
              && Sqlite.HasEmail(store.users, req.email)
              && Bcrypt.CompareHashAndPassword(Sqlite.RowByEmail(store.users, req.email).passHash, req.password)
              && req.appId in store.apps
    ensures r.Response? ==>
              Jwt.Parse(r.value, store.apps[req.appId].secret) ==
              Some(Jwt.Claims(req.email, Jwt.Unix(now + svc.tokenTTL),
                              Sqlite.RowByEmail(store.users, req.email).id, req.appId))
    ensures Server.LoginCallsService(req, validate) && userError.None? && !Sqlite.HasEmail(store.users, req.email) ==>
              r == Server.Status(Server.InvalidArgument, "email or password is invalid")
  {
    Server.Login(req, validate,
      Auth.Login(svc, store.User(req.email, userError), req.password, store.App(req.appId, appError), now))
  }

  /** The IsAdmin RPC. `driverError` is a driver failure of the query, if any. */
  function IsAdminRpc(store: Sqlite.Storage, req: Server.IsAdminRequest, driverError: Option<string>): (r: Server.Reply<bool>)
    reads store
    ensures Server.IsAdminCallsService(req) && driverError.None? ==>
              r == Server.Response(req.userId in store.admins && req.userId in store.users)
    ensures r.Status? ==> r.code != Server.NotFound
  {
    Server.IsAdmin(req, Auth.IsAdmin(store.IsAdmin(req.userId, driverError)))
  }

  /** The Register RPC. `answer` is what RegisterNewUser returned, or None
      when the handler rejected the request without calling it. */
  method RegisterRpc(store: Sqlite.Storage, req: Server.RegisterRequest,
                     validate: Server.RegisterRequest -> Option<string>,
                     entropy: Bcrypt.Entropy, fault: Sqlite.SaveFault)
    returns (answer: Option<Result<int>>, reply: Server.Reply<int>)
    requires store.Valid()
    modifies store
    ensures store.Valid()
    ensures store.apps == old(store.apps) && store.admins == old(store.admins)
    ensures !Server.RegisterCallsService(req, validate) ==>
              answer == None && reply == Server.Status(Server.InvalidArgument, validate(req).value)
              && store.users == old(store.users) && store.nextId == old(store.nextId)
    ensures Server.RegisterCallsService(req, validate) ==>
              && answer.Some? && reply == Server.Register(req, validate, answer.value)
              && Auth.Registers(old(store.users), old(store.nextId), store.users, store.nextId,
                                req.email, req.password, entropy, fault, answer.value)
    ensures Server.RegisterCallsService(req, validate) && |req.password| > Bcrypt.MaxPasswordLength ==>
              answer == Some(Err(0, Failure(Bcrypt.PasswordTooLong)))
              && reply == Server.Status(Server.Internal, Bcrypt.PasswordTooLong)
              && store.users == old(store.users) && store.nextId == old(store.nextId)
    ensures Server.RegisterCallsService(req, validate) && |req.password| <= Bcrypt.MaxPasswordLength
            && entropy.Salt? && fault.Healthy? ==>
              if Sqlite.HasEmail(old(store.users), req.email) then
                answer == Some(Err(0, UserExists)) && reply == Server.Status(Server.Internal, "user already exists")
                && store.users == old(store.users) && store.nextId == old(store.nextId)
              else
                var id := old(store.nextId);
                answer == Some(Ok(id)) && reply == Server.Response(id)
                && store.users == old(store.users)[id := User(id, req.email, Bcrypt.GenerateFromPassword(req.password, entropy).value)]
                && store.nextId == id + 1
                && store.User(req.email, None) == Ok(store.users[id])
  {
    if !Server.RegisterCallsService(req, validate) {
      answer := None;
      reply := Server.Status(Server.InvalidArgument, validate(req).value);
      return;
    }
    ghost var users, id := store.users, store.nextId;
    var r := Auth.RegisterNewUser(store, req.email, req.password, entropy, fault);
    answer := Some(r);
    reply := Server.Register(req, validate, r);
    if Bcrypt.GenerateFromPassword(req.password, entropy).Ok? && fault.Healthy? && !Sqlite.HasEmail(users, req.email) {
      Sqlite.FindAfterInsert(users, id, User(id, req.email, Bcrypt.GenerateFromPassword(req.password, entropy).value));
    }
  }

  /** A registered user who logs in with the registration password and an
      existing application receives a token for exactly that user and
      application. */
  lemma LoginAfterRegistration(store: Sqlite.Storage, svc: Auth.Service, id: int, email: string,
                               password: string, salt: char, appId: int,
                               validate: Server.LoginRequest -> Option<string>, now: int)
    requires store.Valid()
    requires id in store.users
    requires store.users[id].email == email
    requires Bcrypt.GenerateFromPassword(password, Bcrypt.Salt(salt)) == Ok(store.users[id].passHash)
    requires appId in store.apps && appId != Server.EmptyValue
    requires validate(Server.LoginRequest(email, password, appId)).None?
    ensures var r := LoginRpc(store, svc, Server.LoginRequest(email, password, appId), validate, now, None, None);
            && r.Response?
            && Jwt.Parse(r.value, store.apps[appId].secret) ==
               Some(Jwt.Claims(email, Jwt.Unix(now + svc.tokenTTL), id, appId))
  {
  }

  /** With a wrong password a registered user gets the same reply as an
      address nobody registered. */
  lemma WrongPasswordLooksLikeUnknownEmail(store: Sqlite.Storage, svc: Auth.Service, id: int,
                                           email: string, password: string, wrong: string,
                                           salt: char, stranger: string, appId: int,
                                           validate: Server.LoginRequest -> Option<string>,
                                           now: int, appError: Option<string>)
    requires store.Valid()
    requires id in store.users
    requires store.users[id].email == email
    requires Bcrypt.GenerateFromPassword(password, Bcrypt.Salt(salt)) == Ok(store.users[id].passHash)
    requires wrong != password
    requires !Sqlite.HasEmail(store.users, stranger)
    requires appId != Server.EmptyValue
    requires validate(Server.LoginRequest(email, wrong, appId)).None?
    requires validate(Server.LoginRequest(stranger, wrong, appId)).None?
    ensures LoginRpc(store, svc, Server.LoginRequest(email, wrong, appId), validate, now, None, appError)
         == LoginRpc(store, svc, Server.LoginRequest(stranger, wrong, appId), validate, now, None, appError)
         == Server.Status(Server.InvalidArgument, "email or password is invalid")
  {
  }

  /** A registered user naming an application the store does not know gets
      Internal with auth.ErrInvalidAppID's message. */
  lemma UnknownAppIsInternal(store: Sqlite.Storage, svc: Auth.Service, id: int, email: string,
                             password: string, salt: char, appId: int,
                             validate: Server.LoginRequest -> Option<string>, now: int)
    requires store.Valid()
    requires id in store.users
    requires store.users[id].email == email
    requires Bcrypt.GenerateFromPassword(password, Bcrypt.Salt(salt)) == Ok(store.users[id].passHash)
    requires appId !in store.apps && appId != Server.EmptyValue
    requires validate(Server.LoginRequest(email, password, appId)).None?
    ensures LoginRpc(store, svc, Server.LoginRequest(email, password, appId), validate, now, None, None)
         == Server.Status(Server.Internal, "invalid application ID")
  {
  }

  /** Registering an address twice: the first call answers the new id, the
      second reports the duplicate (as Internal, with the message "user
      already exists") and changes nothing, and the original password still
      logs in. */
  method DoubleRegistration(store: Sqlite.Storage, svc: Auth.Service, email: string, password: string,
                            appId: int, salt: char, salt': char, now: int,
                            validateRegister: Server.RegisterRequest -> Option<string>,
                            validateLogin: Server.LoginRequest -> Option<string>)
    returns (first: Server.Reply<int>, second: Server.Reply<int>, intended: Server.Reply<int>, login: Server.Reply<Jwt.Token>)
    requires store.Valid()
    requires !Sqlite.HasEmail(store.users, email) && |password| <= Bcrypt.MaxPasswordLength
    requires appId in store.apps && appId != Server.EmptyValue
    requires validateRegister(Server.RegisterRequest(email, password)).None?
    requires validateLogin(Server.LoginRequest(email, password, appId)).None?
    modifies store
    ensures store.apps == old(store.apps) && store.admins == old(store.admins)
    ensures store.users == old(store.users)[old(store.nextId) :=
              User(old(store.nextId), email, Bcrypt.GenerateFromPassword(password, Bcrypt.Salt(salt)).value)]
    ensures store.nextId == old(store.nextId) + 1
    ensures first == Server.Response(old(store.nextId))
    ensures second == Server.Status(Server.Internal, "user already exists")
    ensures intended == Server.Status(Server.AlreadyExists, "user already exists")
    ensures login.Response?
    ensures Jwt.Parse(login.value, store.apps[appId].secret) ==
            Some(Jwt.Claims(email, Jwt.Unix(now + svc.tokenTTL), old(store.nextId), appId))
  {
    var req := Server.RegisterRequest(email, password);
    var id := store.nextId;
    var answer;
    answer, first := RegisterRpc(store, req, validateRegister, Bcrypt.Salt(salt), Sqlite.Healthy);
    assert store.users[id].email == email;
    answer, second := RegisterRpc(store, req, validateRegister, Bcrypt.Salt(salt'), Sqlite.Healthy);
    intended := Server.RegisterCorrected(req, validateRegister, answer.value);
    LoginAfterRegistration(store, svc, id, email, password, salt, appId, validateLogin, now);
    login := LoginRpc(store, svc, Server.LoginRequest(email, password, appId), validateLogin, now, None, None);
  }

  /** A fresh database with application 2 (secret "test-secret"): register
      a@x.com / Secret123, log in to application 2, then log in with a wrong
      password. */
  method RegisterLoginScenario(now: int, ttl: int) returns (registered: Server.Reply<int>,
                                                            token: Server.Reply<Jwt.Token>,
                                                            rejected: Server.Reply<Jwt.Token>)
    ensures registered == Server.Response(1)
    ensures token.Response?
    ensures Jwt.Parse(token.value, "test-secret") == Some(Jwt.Claims("a@x.com", Jwt.Unix(now + ttl), 1, 2))
    ensures rejected == Server.Status(Server.InvalidArgument, "email or password is invalid")
  {
    var store := new Sqlite.Storage(map[2 := App(2, "test", "test-secret")], {});
    var svc := Auth.Service(ttl);
    var accept := (_: Server.RegisterRequest) => None;
    var acceptLogin := (_: Server.LoginRequest) => None;
    var answer;
    answer, registered := RegisterRpc(store, Server.RegisterRequest("a@x.com", "Secret123"), accept, Bcrypt.Salt('s'), Sqlite.Healthy);
    LoginAfterRegistration(store, svc, 1, "a@x.com", "Secret123", 's', 2, acceptLogin, now);
    token := LoginRpc(store, svc, Server.LoginRequest("a@x.com", "Secret123", 2), acceptLogin, now, None, None);
    WrongPasswordLooksLikeUnknownEmail(store, svc, 1, "a@x.com", "Secret123", "wrong", 's', "b@x.com", 2, acceptLogin, now, None);
    rejected := LoginRpc(store, svc, Server.LoginRequest("a@x.com", "wrong", 2), acceptLogin, now, None, None);
  }
}
