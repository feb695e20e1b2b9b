/**
 * `UserAccountController`: the REST handlers under /account. Every handler is
 * one delegating call; what it decides is which service operation runs and
 * on which login: the path variable, the request body, or the authenticated
 * principal's name.
 */
module AccountController {
  import opened Accounting
  import opened AccountStore
  import opened AccountService
  import opened Authorization

  /** The request body, already read into the type a handler declares, or absent. */
  datatype Body = NoBody | RegisterBody(register: UserRegisterDto) | EditBody(edit: UserEditDto)

  /** An HTTP request: method, path segments, body and the `X-Password` header. */
  datatype Request = Request(verb: HttpMethod, path: seq<string>, body: Body, passwordHeader: Option<string>)

  /** One call of the account service, with the arguments the handler passes. */
  datatype Call =
    | Register(dto: UserRegisterDto)
    | GetUser(login: string)
    | RemoveUser(login: string)
    | UpdateUser(login: string, edit: UserEditDto)
    | ChangeRolesList(login: string, role: string, isAddRole: bool)
    | ChangePassword(login: string, newPassword: string)

  /**
   * What the dispatcher does with a request: invoke one service call, or stop
   * before any: no handler for the method and path, a missing body or header
   * (a client error), or a principal the handler needs but does not get.
   */
  datatype Dispatched = Invoke(call: Call) | NoHandler | BadRequest | MissingPrincipal

  /** POST /account/register */
  predicate IsRegisterPath(path: seq<string>) { path == ["account", "register"] }

  /** POST /account/login */
  predicate IsLoginPath(path: seq<string>) { path == ["account", "login"] }

  /** PUT /account/password */
  predicate IsPasswordPath(path: seq<string>) { path == ["account", "password"] }

  /**
   * The method and path select one of the controller's eight handlers. A HEAD
   * request is served by the GET handler of its path.
   */
  predicate HasHandler(verb: HttpMethod, path: seq<string>)
  {
    || (verb == Post && (IsRegisterPath(path) || IsLoginPath(path)))
    || (IsUserPath(path) && verb in {Get, Head, Put, Delete})
    || (IsRolePath(path) && verb in {Put, Delete})
    || (verb == Put && IsPasswordPath(path))
  }

  /** The principal's name, when the request carries an authenticated principal. */
  function PrincipalName(auth: Authentication): Option<string>
  {
    if auth.Principal? then Some(auth.name) else None
  }

  /**
   * The handler mapping of `UserAccountController` followed by the handler's
   * argument selection.
   */
  function Dispatch(req: Request, auth: Authentication): (d: Dispatched)
    ensures d.NoHandler? <==> !HasHandler(req.verb, req.path)
    // the one login a call acts on comes from the path, the body or the principal, never elsewhere
    ensures d.Invoke? && d.call.Register? <==>
      req.verb == Post && IsRegisterPath(req.path) && req.body.RegisterBody?
    ensures d.Invoke? && d.call.Register? ==> d.call.dto == req.body.register
    ensures d.Invoke? && d.call.GetUser? ==>
      || (req.verb in {Get, Head} && IsUserPath(req.path) && d.call.login == req.path[2])
      || (req.verb == Post && IsLoginPath(req.path) && auth.Principal? && d.call.login == auth.name)
    ensures req.verb in {Get, Head} && IsUserPath(req.path) ==> d == Invoke(GetUser(req.path[2]))
    ensures d.Invoke? && d.call.RemoveUser? <==> req.verb == Delete && IsUserPath(req.path)
    ensures d.Invoke? && d.call.RemoveUser? ==> d.call.login == req.path[2]
    ensures d.Invoke? && d.call.UpdateUser? <==> req.verb == Put && IsUserPath(req.path) && req.body.EditBody?
    ensures d.Invoke? && d.call.UpdateUser? ==> d.call.login == req.path[2] && d.call.edit == req.body.edit
    // the add/remove flag is decided by the HTTP method alone
    ensures d.Invoke? && d.call.ChangeRolesList? <==> IsRolePath(req.path) && req.verb in {Put, Delete}
    ensures d.Invoke? && d.call.ChangeRolesList? ==>
      && d.call.login == req.path[2] && d.call.role == req.path[4]
      && (d.call.isAddRole <==> req.verb == Put)
    // a password change acts on the caller's own account, with the header's value
    ensures d.Invoke? && d.call.ChangePassword? <==>
      req.verb == Put && IsPasswordPath(req.path) && req.passwordHeader.Some? && auth.Principal?
    ensures d.Invoke? && d.call.ChangePassword? ==>
      auth.Principal? && d.call.login == auth.name && req.passwordHeader == Some(d.call.newPassword)
    // the failures before any call
    ensures d.BadRequest? <==>
      || (req.verb == Post && IsRegisterPath(req.path) && !req.body.RegisterBody?)
      || (req.verb == Put && IsUserPath(req.path) && !req.body.EditBody?)
      || (req.verb == Put && IsPasswordPath(req.path) && req.passwordHeader.None?)
    ensures d.MissingPrincipal? <==>
      && auth.Anonymous?
      && ((req.verb == Post && IsLoginPath(req.path))
          || (req.verb == Put && IsPasswordPath(req.path) && req.passwordHeader.Some?))
  {
    var path := req.path;
    if req.verb == Post && IsRegisterPath(path) then
      if req.body.RegisterBody? then Invoke(Register(req.body.register)) else BadRequest
    else if req.verb == Post && IsLoginPath(path) then
      match PrincipalName(auth)
      case None => MissingPrincipal
      case Some(name) => Invoke(GetUser(name))
    else if IsUserPath(path) && req.verb in {Get, Head} then
      Invoke(GetUser(path[2]))
    else if IsUserPath(path) && req.verb == Delete then
      Invoke(RemoveUser(path[2]))
    else if IsUserPath(path) && req.verb == Put then
      if req.body.EditBody? then Invoke(UpdateUser(path[2], req.body.edit)) else BadRequest
    else if IsRolePath(path) && req.verb == Put then
      Invoke(ChangeRolesList(path[2], path[4], true))
    else if IsRolePath(path) && req.verb == Delete then
      Invoke(ChangeRolesList(path[2], path[4], false))
    else if req.verb == Put && IsPasswordPath(path) then
      match req.passwordHeader
      case None => BadRequest
      case Some(newPassword) =>
        match PrincipalName(auth)
        case None => MissingPrincipal
        case Some(name) => Invoke(ChangePassword(name, newPassword))
    else
      NoHandler
  }

  /** What a handler hands back on success. */
  datatype Reply = UserReply(user: UserDto) | RolesReply(roles: RolesDto) | NoContent

  function UserOutcome(o: Outcome<UserDto>): Outcome<Reply>
  {
    match o.result
    case Success(u) => Outcome(Success(UserReply(u)), o.writes)
    case Failure(e) => Outcome(Failure(e), o.writes)
  }

  function RolesOutcome(o: Outcome<RolesDto>): Outcome<Reply>
  {
    match o.result
    case Success(r) => Outcome(Success(RolesReply(r)), o.writes)
    case Failure(e) => Outcome(Failure(e), o.writes)
  }

  function UnitOutcome(o: Outcome<()>): Outcome<Reply>
  {
    match o.result
    case Success(_) => Outcome(Success(NoContent), o.writes)
    case Failure(e) => Outcome(Failure(e), o.writes)
  }

  /** The service operation a call names, run on the repository's content. */
  function Execute(s: Store, encode: string -> string, call: Call): (o: Outcome<Reply>)
    // every operation writes at most once, and not at all when it fails or only reads
    ensures |o.writes| <= 1
    ensures o.result.Failure? || call.GetUser? ==> o.writes == []
    // the errors: a taken login on registration, an unknown login for every other call
    ensures call.Register? ==> (o.result.Failure? <==> call.dto.login in s)
    ensures !call.Register? && call.login !in s ==> o.result == Failure(UserNotFound)
    ensures !call.Register? && !call.ChangeRolesList? && call.login in s ==> o.result.Success?
  {
    match call
    case Register(dto) => UserOutcome(AccountStore.Register(s, encode, dto))
    case GetUser(login) => UserOutcome(AccountStore.GetUser(s, login))
    case RemoveUser(login) => UserOutcome(AccountStore.RemoveUser(s, login))
    case UpdateUser(login, edit) => UserOutcome(AccountStore.UpdateUser(s, login, edit))
    case ChangeRolesList(login, role, isAddRole) => RolesOutcome(AccountStore.ChangeRolesList(s, login, role, isAddRole))
    case ChangePassword(login, newPassword) => UnitOutcome(AccountStore.ChangePassword(s, encode, login, newPassword))
  }

  /** The controller object: it holds the service and hands each call to it. */
  class UserAccountController {
    const userAccountService: UserAccountServiceImpl

    constructor (service: UserAccountServiceImpl)
      ensures userAccountService == service
    {
      userAccountService := service;
    }

    /** Runs one dispatched call on the service: exactly the operation `Execute` describes. */
    method Perform(call: Call) returns (r: Result<Reply, Error>)
      requires userAccountService.Valid()
      modifies userAccountService
      ensures userAccountService.Valid()
      ensures var o := Execute(old(userAccountService.accounts), userAccountService.encode, call);
        && r == o.result
        && userAccountService.accounts == After(old(userAccountService.accounts), o)
        && userAccountService.writes == old(userAccountService.writes) + o.writes
    {
      var service := userAccountService;
      match call
      case Register(dto) =>
        var u := service.Register(dto);
        r := if u.Success? then Success(UserReply(u.value)) else Failure(u.error);
      case GetUser(login) =>
        var u := service.GetUser(login);
        r := if u.Success? then Success(UserReply(u.value)) else Failure(u.error);
      case RemoveUser(login) =>
        var u := service.RemoveUser(login);
        r := if u.Success? then Success(UserReply(u.value)) else Failure(u.error);
      case UpdateUser(login, edit) =>
        var u := service.UpdateUser(login, edit);
        r := if u.Success? then Success(UserReply(u.value)) else Failure(u.error);
      case ChangeRolesList(login, role, isAddRole) =>
        var d := service.ChangeRolesList(login, role, isAddRole);
        r := if d.Success? then Success(RolesReply(d.value)) else Failure(d.error);
      case ChangePassword(login, newPassword) =>
        var e := service.ChangePassword(login, newPassword);
        r := if e.Success? then Success(NoContent) else Failure(e.error);
    }
  }
}
