/** The gRPC adapter (package grpc/auth): each handler checks its request,
    calls the service, and turns a service error into a status.

    A handler is a function of the request and of the service's answer for
    the request's own fields. When a guard rejects the request the answer
    plays no part in the reply, which is how "the service is not called"
    reads here; `LoginCallsService` and its siblings say when it is called.
    The generated `Validate()` of a request message is an arbitrary
    function `validate`, giving the violation's message if there is one. */
module Server {
  import opened Errors
  import Jwt

  /** emptyValue: the app id a request without one carries. */
  const EmptyValue := 0

  datatype Code = InvalidArgument | NotFound | AlreadyExists | Internal

  /** A handler's result: a response message, or a status error. */
  datatype Reply<R> = Response(value: R) | Status(code: Code, message: string)

  datatype LoginRequest = LoginRequest(email: string, password: string, appId: int)
  datatype RegisterRequest = RegisterRequest(email: string, password: string)
  datatype IsAdminRequest = IsAdminRequest(userId: int)

  predicate LoginCallsService(req: LoginRequest, validate: LoginRequest -> Option<string>)
  {
    validate(req).None? && req.appId != EmptyValue
  }

  predicate RegisterCallsService(req: RegisterRequest, validate: RegisterRequest -> Option<string>)
  {
    validate(req).None?
  }

  predicate IsAdminCallsService(req: IsAdminRequest)
  {
    req.userId > 0
  }

  /** ServerAPI.Login. Only auth.ErrInvalidCredentials is a client error;
      every other service error, an unknown application included, is
      Internal with the error's own message. */
  function Login(req: LoginRequest, validate: LoginRequest -> Option<string>, answer: Result<Jwt.Token>): (r: Reply<Jwt.Token>)
    ensures validate(req).Some? ==> r == Status(InvalidArgument, validate(req).value)
    ensures validate(req).None? && req.appId == EmptyValue ==> r == Status(InvalidArgument, "AppID is required")
    ensures r.Response? <==> LoginCallsService(req, validate) && answer.Ok?
    ensures r.Response? ==> r.value == answer.value
    ensures LoginCallsService(req, validate) && answer.Err? ==>
              r == if answer.error == InvalidCredentials then Status(InvalidArgument, "email or password is invalid")
                   else Status(Internal, Message(answer.error))
  {
    if validate(req).Some? then Status(InvalidArgument, validate(req).value)
    else if req.appId == EmptyValue then Status(InvalidArgument, "AppID is required")
    else match answer
      case Ok(token) => Response(token)
      case Err(_, e) =>
        if e == InvalidCredentials then Status(InvalidArgument, "email or password is invalid")
        else Status(Internal, Message(e))
  }

  /** ServerAPI.Register. It compares the service error with
      auth.ErrInvalidCredentials, an error RegisterNewUser never returns;
      a duplicate email (auth.ErrUserExists) therefore comes back as
      Internal, not AlreadyExists. */
  function Register(req: RegisterRequest, validate: RegisterRequest -> Option<string>, answer: Result<int>): (r: Reply<int>)
    ensures validate(req).Some? ==> r == Status(InvalidArgument, validate(req).value)
    ensures r.Response? <==> RegisterCallsService(req, validate) && answer.Ok?
    ensures r.Response? ==> r.value == answer.value
    ensures RegisterCallsService(req, validate) && answer.Err? ==>
              r == if answer.error == InvalidCredentials then Status(AlreadyExists, "user already exists")
                   else Status(Internal, Message(answer.error))
  {
    if validate(req).Some? then Status(InvalidArgument, validate(req).value)
    else match answer
      case Ok(userId) => Response(userId)
      case Err(_, e) =>
        if e == InvalidCredentials then Status(AlreadyExists, "user already exists")
        else Status(Internal, Message(e))
  }

  /** Register as evidently intended: the duplicate-email error of the
      service is the one reported as AlreadyExists. */
  function RegisterCorrected(req: RegisterRequest, validate: RegisterRequest -> Option<string>, answer: Result<int>): (r: Reply<int>)
    ensures validate(req).Some? ==> r == Status(InvalidArgument, validate(req).value)
    ensures r.Response? <==> RegisterCallsService(req, validate) && answer.Ok?
    ensures r.Response? ==> r.value == answer.value
    ensures RegisterCallsService(req, validate) && answer.Err? ==>
              r == if answer.error == UserExists then Status(AlreadyExists, "user already exists")
                   else Status(Internal, Message(answer.error))
  {
    if validate(req).Some? then Status(InvalidArgument, validate(req).value)
    else match answer
      case Ok(userId) => Response(userId)
      case Err(_, e) =>
        if e == UserExists then Status(AlreadyExists, "user already exists")
        else Status(Internal, Message(e))
  }

  /** ServerAPI.IsAdmin. It does not call Validate(); it rejects a user id
      that is not positive. It compares the service error with
      auth.ErrInvalidCredentials, an error the service's IsAdmin does not
      produce from the storage's errors. */
  function IsAdmin(req: IsAdminRequest, answer: Result<bool>): (r: Reply<bool>)
    ensures req.userId <= 0 ==> r == Status(InvalidArgument, "invalid user id")
    ensures r.Response? <==> IsAdminCallsService(req) && answer.Ok?
    ensures r.Response? ==> r.value == answer.value
    ensures IsAdminCallsService(req) && answer.Err? ==>
              r == if answer.error == InvalidCredentials then Status(NotFound, "user not found")
                   else Status(Internal, Message(answer.error))
  {
    if req.userId <= 0 then Status(InvalidArgument, "invalid user id")
    else match answer
      case Ok(isAdmin) => Response(isAdmin)
      case Err(_, e) =>
        if e == InvalidCredentials then Status(NotFound, "user not found")
        else Status(Internal, Message(e))
  }

  /** IsAdmin as evidently intended: the service's unknown-user error is the
      one reported as NotFound. */
  function IsAdminCorrected(req: IsAdminRequest, answer: Result<bool>): (r: Reply<bool>)
    ensures req.userId <= 0 ==> r == Status(InvalidArgument, "invalid user id")
    ensures r.Response? <==> IsAdminCallsService(req) && answer.Ok?
    ensures r.Response? ==> r.value == answer.value
    ensures IsAdminCallsService(req) && answer.Err? ==>
              r == if answer.error == InvalidUserID then Status(NotFound, "user not found")
                   else Status(Internal, Message(answer.error))
  {
    if req.userId <= 0 then Status(InvalidArgument, "invalid user id")
    else match answer
      case Ok(isAdmin) => Response(isAdmin)
      case Err(_, e) =>
        if e == InvalidUserID then Status(NotFound, "user not found")
        else Status(Internal, Message(e))
  }

  /** A login the guards reject gets the same InvalidArgument reply
      whatever the service would have answered. */
  lemma LoginRejectionIgnoresService(req: LoginRequest, validate: LoginRequest -> Option<string>,
                                     answer: Result<Jwt.Token>, answer': Result<Jwt.Token>)
    requires !LoginCallsService(req, validate)
    ensures Login(req, validate, answer) == Login(req, validate, answer')
    ensures Login(req, validate, answer).Status? && Login(req, validate, answer).code == InvalidArgument
  {
  }

  /** A registration that fails Validate() gets the same reply whatever the
      service would have answered. */
  lemma RegisterRejectionIgnoresService(req: RegisterRequest, validate: RegisterRequest -> Option<string>,
                                        answer: Result<int>, answer': Result<int>)
    requires !RegisterCallsService(req, validate)
    ensures Register(req, validate, answer) == Register(req, validate, answer')
    ensures Register(req, validate, answer) == RegisterCorrected(req, validate, answer')
    ensures Register(req, validate, answer).Status? && Register(req, validate, answer).code == InvalidArgument
  {
  }

  /** An admin query for a non-positive user id gets the same reply whatever
      the service would have answered. */
  lemma IsAdminRejectionIgnoresService(req: IsAdminRequest, answer: Result<bool>, answer': Result<bool>)
    requires !IsAdminCallsService(req)
    ensures IsAdmin(req, answer) == IsAdmin(req, answer')
    ensures IsAdmin(req, answer) == IsAdminCorrected(req, answer')
    ensures IsAdmin(req, answer).Status? && IsAdmin(req, answer).code == InvalidArgument
  {
  }

  /** As written, Register reports the service's duplicate-email error as
      Internal; the status message still names the cause. */
  lemma RegisterReportsDuplicateAsInternal(req: RegisterRequest, validate: RegisterRequest -> Option<string>)
    requires validate(req).None?
    ensures Register(req, validate, Err(0, UserExists)) == Status(Internal, "user already exists")
    ensures RegisterCorrected(req, validate, Err(0, UserExists)) == Status(AlreadyExists, "user already exists")
  {
  }

  /** As written, IsAdmin reports the service's unknown-user error as
      Internal. */
  lemma IsAdminReportsUnknownUserAsInternal(req: IsAdminRequest)
    requires req.userId > 0
    ensures IsAdmin(req, Err(false, InvalidUserID)) == Status(Internal, "invalid user ID")
    ensures IsAdminCorrected(req, Err(false, InvalidUserID)) == Status(NotFound, "user not found")
  {
  }
}
