/**
 * The account API end to end: the security filter decides first, then the
 * controller picks the service call, then the service runs it on the
 * repository. The lemmas here are about what a single request, or a run of
 * requests, can do to other people's accounts.
 */
module AccountApi {
  import opened Accounting
  import opened AccountStore
  import opened Authorization
  import opened AccountController

  /** The answer to a request: refused by the policy, stopped by the dispatcher, or served. */
  datatype Response = Denied | Rejected(reason: Dispatched) | Served(result: Result<Reply, Error>)

  /** A response together with the repository writes the request caused. */
  datatype Exchange = Exchange(response: Response, writes: seq<Write>)

  /** One request through the filter chain, the controller and the service. */
  function Handle(policy: seq<Rule>, s: Store, encode: string -> string, req: Request, auth: Authentication): (x: Exchange)
    ensures !Allowed(policy, req.verb, req.path, auth) ==> x == Exchange(Denied, [])
    ensures Allowed(policy, req.verb, req.path, auth) && !Dispatch(req, auth).Invoke? ==>
      x == Exchange(Rejected(Dispatch(req, auth)), [])
    ensures x.writes != [] ==> Allowed(policy, req.verb, req.path, auth) && Dispatch(req, auth).Invoke?
    // an allowed and dispatched request is served with the call's own result and writes
    ensures Allowed(policy, req.verb, req.path, auth) && Dispatch(req, auth).Invoke? ==>
      var o := Execute(s, encode, Dispatch(req, auth).call);
      x == Exchange(Served(o.result), o.writes)
  {
    if !Allowed(policy, req.verb, req.path, auth) then Exchange(Denied, [])
    else
      match Dispatch(req, auth)
      case Invoke(call) =>
        var o := Execute(s, encode, call);
        Exchange(Served(o.result), o.writes)
      case d => Exchange(Rejected(d), [])
  }

  /** The repository content after one request. */
  function Next(policy: seq<Rule>, s: Store, encode: string -> string, req: Request, auth: Authentication): Store
  {
    Apply(s, Handle(policy, s, encode, req, auth).writes)
  }

  /** The repository after a call, as the store's own function for that operation says. */
  lemma ExecuteWrites(s: Store, encode: string -> string, call: Call)
    ensures call.Register? ==> Apply(s, Execute(s, encode, call).writes) == After(s, AccountStore.Register(s, encode, call.dto))
    ensures call.GetUser? ==> Apply(s, Execute(s, encode, call).writes) == s
    ensures call.RemoveUser? ==> Apply(s, Execute(s, encode, call).writes) == After(s, AccountStore.RemoveUser(s, call.login))
    ensures call.UpdateUser? ==>
      Apply(s, Execute(s, encode, call).writes) == After(s, AccountStore.UpdateUser(s, call.login, call.edit))
    ensures call.ChangeRolesList? ==>
      Apply(s, Execute(s, encode, call).writes) == After(s, AccountStore.ChangeRolesList(s, call.login, call.role, call.isAddRole))
    ensures call.ChangePassword? ==>
      Apply(s, Execute(s, encode, call).writes) == After(s, AccountStore.ChangePassword(s, encode, call.login, call.newPassword))
  {
  }

  /** No account's password differs between `s` and `t` except the one under `name`. */
  ghost predicate PasswordsKeptExcept(s: Store, t: Store, name: string)
  {
    forall l :: l in s && l in t && l != name ==> t[l].password == s[l].password
  }

  /**
   * Whatever the policy, a request changes the password of an account that
   * stays in the repository only when it is that account's own authenticated
   * principal's request.
   */
  lemma PasswordChangesOnlyForCaller(policy: seq<Rule>, s: Store, encode: string -> string, req: Request, auth: Authentication)
    ensures var t := Next(policy, s, encode, req, auth);
      forall l :: l in s && l in t && t[l].password != s[l].password ==> auth.Principal? && auth.name == l
  {
    var t := Next(policy, s, encode, req, auth);
    var d := Dispatch(req, auth);
    if Allowed(policy, req.verb, req.path, auth) && d.Invoke? {
      assert t == Apply(s, Execute(s, encode, d.call).writes);
      ExecuteWrites(s, encode, d.call);
      match d.call
      case Register(dto) =>
        assert PasswordsKeptExcept(s, t, dto.login);
      case GetUser(login) =>
      case RemoveUser(login) =>
      case UpdateUser(login, edit) =>
        assert PasswordsKeptExcept(s, t, login);
      case ChangeRolesList(login, role, isAddRole) =>
      case ChangePassword(login, newPassword) =>
        assert PasswordsKeptExcept(s, t, login);
    } else {
      assert t == s;
    }
  }

  /** Every account in `t` holds at most the roles it held in `s`, and a new account none. */
  ghost predicate RolesWithin(s: Store, t: Store)
  {
    forall l :: l in t ==> t[l].roles <= (if l in s then s[l].roles else {})
  }

  lemma RolesWithinTransitive(s: Store, t: Store, u: Store)
    requires RolesWithin(s, t) && RolesWithin(t, u)
    ensures RolesWithin(s, u)
  {
    forall l | l in u
      ensures u[l].roles <= (if l in s then s[l].roles else {})
    {
      if l in t {
        assert u[l].roles <= t[l].roles;
      } else {
        assert u[l].roles == {};
      }
    }
  }

  /** The policy lets a request reach a role path only when the caller holds ADMINISTRATOR. */
  ghost predicate GuardsRolePaths(policy: seq<Rule>)
  {
    forall verb, path, auth :: IsRolePath(path) && Allowed(policy, verb, path, auth) ==> HasRole(auth, Administrator)
  }

  lemma PoliciesGuardRolePaths()
    ensures GuardsRolePaths(Policy())
    ensures GuardsRolePaths(IntendedPolicy())
  {
    forall verb, path, auth | IsRolePath(path) && Allowed(Policy(), verb, path, auth)
      ensures HasRole(auth, Administrator)
    {
      PolicyDecides(verb, path, auth);
      assert path[0] == "account" && |path| == 5;
    }
    forall verb, path, auth | IsRolePath(path) && Allowed(IntendedPolicy(), verb, path, auth)
      ensures HasRole(auth, Administrator)
    {
      IntendedPolicyDecides(verb, path, auth);
      assert path[0] == "account" && |path| == 5;
    }
  }

  /** Under a policy that guards the role paths, only an administrator's request can give an account a role. */
  lemma RolesGrowOnlyForAdministrators(policy: seq<Rule>, s: Store, encode: string -> string, req: Request, auth: Authentication)
    requires GuardsRolePaths(policy)
    ensures HasRole(auth, Administrator) || RolesWithin(s, Next(policy, s, encode, req, auth))
  {
    var t := Next(policy, s, encode, req, auth);
    var d := Dispatch(req, auth);
    if Allowed(policy, req.verb, req.path, auth) && d.Invoke? {
      assert t == Apply(s, Execute(s, encode, d.call).writes);
      ExecuteWrites(s, encode, d.call);
      match d.call
      case Register(dto) =>
        assert RolesWithin(s, t);
      case GetUser(login) =>
      case RemoveUser(login) =>
      case UpdateUser(login, edit) =>
        assert RolesWithin(s, t);
      case ChangeRolesList(login, role, isAddRole) =>
        assert IsRolePath(req.path);
      case ChangePassword(login, newPassword) =>
    } else {
      assert t == s;
    }
  }

  /** The repository after a run of requests, each with its caller, first to last. */
  function RunAll(policy: seq<Rule>, s: Store, encode: string -> string, reqs: seq<(Request, Authentication)>): Store
    decreases |reqs|
  {
    if reqs == [] then s
    else RunAll(policy, Next(policy, s, encode, reqs[0].0, reqs[0].1), encode, reqs[1..])
  }

  /**
   * Under a policy that guards the role paths, however many requests callers
   * without ADMINISTRATOR make, no account ends up with a role it did not hold.
   */
  lemma {:induction false} NonAdministratorsNeverGainRoles(policy: seq<Rule>, s: Store, encode: string -> string, reqs: seq<(Request, Authentication)>)
    requires GuardsRolePaths(policy)
    requires forall i :: 0 <= i < |reqs| ==> !HasRole(reqs[i].1, Administrator)
    ensures RolesWithin(s, RunAll(policy, s, encode, reqs))
    decreases |reqs|
  {
    if reqs == [] {
      assert RolesWithin(s, s);
    } else {
      var t := Next(policy, s, encode, reqs[0].0, reqs[0].1);
      RolesGrowOnlyForAdministrators(policy, s, encode, reqs[0].0, reqs[0].1);
      assert forall i :: 0 <= i < |reqs| - 1 ==> reqs[1..][i] == reqs[i + 1];
      NonAdministratorsNeverGainRoles(policy, t, encode, reqs[1..]);
      RolesWithinTransitive(s, t, RunAll(policy, t, encode, reqs[1..]));
    }
  }

  /**
   * The policy lets an edit of /account/user/{login} through only for that
   * login's authenticated principal, and a removal only for that principal or
   * an authenticated administrator.
   */
  ghost predicate GuardsOwnership(policy: seq<Rule>)
  {
    && (forall path, auth :: IsUserPath(path) && Allowed(policy, Put, path, auth) ==>
          auth.Principal? && auth.name == path[2])
    && (forall path, auth :: IsUserPath(path) && Allowed(policy, Delete, path, auth) ==>
          auth.Principal? && (auth.name == path[2] || Administrator in auth.roles))
  }

  lemma UserPathIsGuarded(path: seq<string>)
    requires IsUserPath(path)
    ensures !IsOpenPath(path) && !IsRolePath(path)
  {
    assert path[0] == "account" && path[1] == "user" && |path| == 3;
  }

  lemma IntendedPolicyGuardsOwnership()
    ensures GuardsOwnership(IntendedPolicy())
  {
    forall path, auth | IsUserPath(path) && Allowed(IntendedPolicy(), Put, path, auth)
      ensures auth.Principal? && auth.name == path[2]
    {
      IntendedPolicyDecides(Put, path, auth);
      UserPathIsGuarded(path);
    }
    forall path, auth | IsUserPath(path) && Allowed(IntendedPolicy(), Delete, path, auth)
      ensures auth.Principal? && (auth.name == path[2] || Administrator in auth.roles)
    {
      IntendedPolicyDecides(Delete, path, auth);
      UserPathIsGuarded(path);
    }
  }

  /**
   * Under a policy that guards ownership, an account leaves the repository
   * only at the request of its own principal or of an administrator.
   */
  lemma RemovalNeedsOwnerOrAdministrator(policy: seq<Rule>, s: Store, encode: string -> string, req: Request, auth: Authentication)
    requires GuardsOwnership(policy)
    ensures var t := Next(policy, s, encode, req, auth);
      forall l :: l in s && l !in t ==> auth.Principal? && (auth.name == l || Administrator in auth.roles)
  {
    var t := Next(policy, s, encode, req, auth);
    var d := Dispatch(req, auth);
    if Allowed(policy, req.verb, req.path, auth) && d.Invoke? {
      assert t == Apply(s, Execute(s, encode, d.call).writes);
      ExecuteWrites(s, encode, d.call);
      match d.call
      case Register(dto) =>
      case GetUser(login) =>
      case RemoveUser(login) =>
        assert Allowed(policy, Delete, req.path, auth);
      case UpdateUser(login, edit) =>
      case ChangeRolesList(login, role, isAddRole) =>
      case ChangePassword(login, newPassword) =>
    } else {
      assert t == s;
    }
  }

  /** The first and last names of `t`'s accounts are those of `s`, except possibly under `name`. */
  ghost predicate NamesKeptExcept(s: Store, t: Store, name: string)
  {
    forall l :: l in s && l in t && l != name ==>
      t[l].firstName == s[l].firstName && t[l].lastName == s[l].lastName
  }

  /** Under a policy that guards ownership, only an account's own principal renames it. */
  lemma RenameNeedsOwner(policy: seq<Rule>, s: Store, encode: string -> string, req: Request, auth: Authentication)
    requires GuardsOwnership(policy)
    ensures var t := Next(policy, s, encode, req, auth);
      forall l :: l in s && l in t && (t[l].firstName != s[l].firstName || t[l].lastName != s[l].lastName) ==>
        auth.Principal? && auth.name == l
  {
    var t := Next(policy, s, encode, req, auth);
    var d := Dispatch(req, auth);
    if Allowed(policy, req.verb, req.path, auth) && d.Invoke? {
      assert t == Apply(s, Execute(s, encode, d.call).writes);
      ExecuteWrites(s, encode, d.call);
      match d.call
      case Register(dto) =>
        assert NamesKeptExcept(s, t, dto.login);
      case GetUser(login) =>
      case RemoveUser(login) =>
      case UpdateUser(login, edit) =>
        assert Allowed(policy, Put, req.path, auth);
        assert NamesKeptExcept(s, t, login);
      case ChangeRolesList(login, role, isAddRole) =>
      case ChangePassword(login, newPassword) =>
    } else {
      assert t == s;
    }
  }

  /** A repository holding one account, registered under the anonymous token's name. */
  function AnonymousUserStore(): (s: Store)
    ensures AnonymousName in s
  {
    map[AnonymousName := Account(AnonymousName, "secret", "", "", {})]
  }

  /**
   * As declared, the policy lets a request without credentials remove the
   * account whose login is the anonymous token's name.
   */
  lemma AnonymousRemovesAnonymousUser(encode: string -> string)
    ensures var req := Request(Delete, ["account", "user", AnonymousName], NoBody, None);
      AnonymousName !in Next(Policy(), AnonymousUserStore(), encode, req, Anonymous)
  {
    var req := Request(Delete, ["account", "user", AnonymousName], NoBody, None);
    var s := AnonymousUserStore();
    AnonymousOwnsAnonymousUser();
    var d := Dispatch(req, Anonymous);
    assert IsUserPath(req.path) && d == Invoke(RemoveUser(AnonymousName));
    ExecuteWrites(s, encode, d.call);
  }

  /** A policy that lets an anonymous request remove an account does not guard ownership. */
  lemma AnonymousRemovalBreaksOwnership(policy: seq<Rule>, path: seq<string>)
    requires IsUserPath(path) && Allowed(policy, Delete, path, Anonymous)
    ensures !GuardsOwnership(policy)
  {
  }

  /** So the declared policy does not guard ownership. */
  lemma PolicyDoesNotGuardOwnership()
    ensures !GuardsOwnership(Policy())
  {
    var path := ["account", "user", AnonymousName];
    AnonymousOwnsAnonymousUser();
    AnonymousRemovalBreaksOwnership(Policy(), path);
  }
}
