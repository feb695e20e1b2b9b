/**
 * The account lifecycle as pure functions over the repository's content.
 *
 * The repository is a map from login to account. Each operation returns an
 * `Outcome`: the value or error the service hands back, and the writes
 * (`save`, `delete`) it issued to the repository, in order. The content after
 * the operation is the old content with those writes replayed (`After`).
 */
module AccountStore {
  import opened Accounting

  /** Every account sits under its own login: the repository keys accounts by id. */
  predicate WellKeyed(m: map<string, Account>)
  {
    forall l :: l in m ==> m[l].login == l
  }

  /** The content of the account repository. */
  type Store = m: map<string, Account> | WellKeyed(m) witness map[]

  /** A repository call that changes its content. */
  datatype Write = Saved(account: Account) | Deleted(account: Account)

  /** `save` stores an account under its id; `delete` removes the entry with the account's id. */
  function ApplyWrite(s: Store, w: Write): Store
  {
    match w
    case Saved(a) => s[a.login := a]
    case Deleted(a) => s - {a.login}
  }

  /** Replays a sequence of writes, first to last. */
  function Apply(s: Store, ws: seq<Write>): Store
    decreases |ws|
  {
    if ws == [] then s else Apply(ApplyWrite(s, ws[0]), ws[1..])
  }

  /** Replaying two runs of writes in turn is replaying their concatenation. */
  lemma {:induction false} ApplyAppend(s: Store, ws: seq<Write>, vs: seq<Write>)
    ensures Apply(s, ws + vs) == Apply(Apply(s, ws), vs)
    decreases |ws|
  {
    if ws == [] {
      assert ws + vs == vs;
    } else {
      assert (ws + vs)[1..] == ws[1..] + vs;
      ApplyAppend(ApplyWrite(s, ws[0]), ws[1..], vs);
    }
  }

  /** Replaying one write is applying it. */
  lemma ApplySingle(s: Store, w: Write)
    ensures Apply(s, [w]) == ApplyWrite(s, w)
  {
    assert [w][1..] == [];
  }

  /** What a service operation returns, and the repository writes it issued. */
  datatype Outcome<T> = Outcome(result: Result<T, Error>, writes: seq<Write>)

  /** The repository content after an operation's writes. */
  function After<T>(s: Store, o: Outcome<T>): Store
  {
    Apply(s, o.writes)
  }

  /** `t` agrees with `s` on every login except possibly `login`. */
  ghost predicate OnlyAt(s: Store, t: Store, login: string)
  {
    forall l :: l != login ==> (l in s <==> l in t) && (l in s ==> s[l] == t[l])
  }

  /** `register`: fails on a taken login, otherwise saves a new account once. */
  function Register(s: Store, encode: string -> string, dto: UserRegisterDto): (o: Outcome<UserDto>)
    ensures o.result.Failure? <==> dto.login in s
    ensures dto.login in s ==> o.result.error == UserExists && o.writes == [] && After(s, o) == s
    ensures dto.login !in s ==>
      var t := After(s, o);
      && t.Keys == s.Keys + {dto.login}
      && OnlyAt(s, t, dto.login)
      && t[dto.login] == Account(dto.login, encode(dto.password), dto.firstName, dto.lastName, {})
      && o.writes == [Saved(t[dto.login])]
      && o.result.value == ToUserDto(t[dto.login])
  {
    if dto.login in s then
      Outcome(Failure(UserExists), [])
    else
      var account := FromRegisterDto(dto).(password := encode(dto.password));
      ApplySingle(s, Saved(account));
      Outcome(Success(ToUserDto(account)), [Saved(account)])
  }

  /** `getUser`: the summary of the stored account, or `UserNotFound`; never writes. */
  function GetUser(s: Store, login: string): (o: Outcome<UserDto>)
    ensures o.writes == [] && After(s, o) == s
    ensures o.result.Failure? <==> login !in s
    ensures o.result.Failure? ==> o.result.error == UserNotFound
    ensures o.result.Success? ==> o.result.value == ToUserDto(s[login]) && o.result.value.login == login
  {
    if login !in s then Outcome(Failure(UserNotFound), [])
    else Outcome(Success(ToUserDto(s[login])), [])
  }

  /** `removeUser`: deletes the account and returns it as it was, or `UserNotFound`. */
  function RemoveUser(s: Store, login: string): (o: Outcome<UserDto>)
    ensures o.result.Failure? <==> login !in s
    ensures login !in s ==> o.result.error == UserNotFound && o.writes == [] && After(s, o) == s
    ensures login in s ==>
      && o.result.value == ToUserDto(s[login])
      && o.writes == [Deleted(s[login])]
      && After(s, o) == s - {login}
  {
    if login !in s then Outcome(Failure(UserNotFound), [])
    else
      var account := s[login];
      ApplySingle(s, Deleted(account));
      Outcome(Success(ToUserDto(account)), [Deleted(account)])
  }

  /** The account with the non-null fields of an edit written over its names. */
  function Edited(a: Account, edit: UserEditDto): Account
  {
    var a' := if edit.firstName.Some? then a.(firstName := edit.firstName.value) else a;
    if edit.lastName.Some? then a'.(lastName := edit.lastName.value) else a'
  }

  /**
   * `updateUser`: overwrites only the names the edit supplies and saves the
   * account unconditionally, or fails with `UserNotFound`.
   */
  function UpdateUser(s: Store, login: string, edit: UserEditDto): (o: Outcome<UserDto>)
    ensures o.result.Failure? <==> login !in s
    ensures login !in s ==> o.result.error == UserNotFound && o.writes == [] && After(s, o) == s
    ensures login in s ==>
      var t := After(s, o);
      && login in t
      && OnlyAt(s, t, login)
      && t[login].login == login
      && t[login].password == s[login].password
      && t[login].roles == s[login].roles
      && t[login].firstName == (if edit.firstName.Some? then edit.firstName.value else s[login].firstName)
      && t[login].lastName == (if edit.lastName.Some? then edit.lastName.value else s[login].lastName)
      && o.writes == [Saved(t[login])]
      && o.result.value == ToUserDto(t[login])
  {
    if login !in s then Outcome(Failure(UserNotFound), [])
    else
      var account := Edited(s[login], edit);
      ApplySingle(s, Saved(account));
      Outcome(Success(ToUserDto(account)), [Saved(account)])
  }

  /** An edit that supplies neither name leaves the repository as it was. */
  lemma UpdateWithEmptyEditKeepsAccount(s: Store, login: string)
    requires login in s
    ensures var o := UpdateUser(s, login, UserEditDto(None, None));
      After(s, o) == s && o.result == Success(ToUserDto(s[login]))
  {
    var t := After(s, UpdateUser(s, login, UserEditDto(None, None)));
    assert t == s[login := s[login]];
  }

  /** An edit that supplies only the first name changes only the first name. */
  lemma UpdateFirstNameOnly(s: Store, login: string, name: string)
    requires login in s
    ensures After(s, UpdateUser(s, login, UserEditDto(Some(name), None)))
         == s[login := s[login].(firstName := name)]
  {
  }

  /** The roles an account has after adding (or removing) `role`. */
  function ChangedRoles(roles: set<Role>, role: Role, isAddRole: bool): set<Role>
  {
    if isAddRole then roles + {role} else roles - {role}
  }

  /**
   * `changeRolesList`: the token is upper-cased and read as a role; the role
   * is added or removed; the account is saved only when its role set changed.
   */
  function ChangeRolesList(s: Store, login: string, role: string, isAddRole: bool): (o: Outcome<RolesDto>)
    ensures login !in s ==> o == Outcome(Failure(UserNotFound), [])
    ensures login in s && ParseRole(ToUpper(role)).None? ==> o == Outcome(Failure(IncorrectRole), [])
    ensures login in s && ParseRole(ToUpper(role)).Some? ==>
      var roles := ChangedRoles(s[login].roles, ParseRole(ToUpper(role)).value, isAddRole);
      && After(s, o) == s[login := s[login].(roles := roles)]
      && (o.writes == [] <==> roles == s[login].roles)
      && |o.writes| <= 1
      && o.result == Success(RolesDto(login, RoleNames(roles)))
  {
    if login !in s then Outcome(Failure(UserNotFound), [])
    else
      var token := ToUpper(role);
      var res := if isAddRole then AddRole(s[login], token) else RemoveRole(s[login], token);
      match res
      case None => Outcome(Failure(IncorrectRole), [])
      case Some((account, changed)) =>
        ApplySingle(s, Saved(account));
        Outcome(Success(ToRolesDto(account)), if changed then [Saved(account)] else [])
  }

  /** Two tokens with the same upper-cased form have the same effect. */
  lemma SameUpperSameEffect(s: Store, login: string, a: string, b: string, isAddRole: bool)
    requires ToUpper(a) == ToUpper(b)
    ensures ChangeRolesList(s, login, a, isAddRole) == ChangeRolesList(s, login, b, isAddRole)
  {
  }

  /** The token's case does not matter: upper-casing it first changes nothing. */
  lemma ChangeRolesIgnoresCase(s: Store, login: string, role: string, isAddRole: bool)
    ensures ChangeRolesList(s, login, ToUpper(role), isAddRole) == ChangeRolesList(s, login, role, isAddRole)
  {
    ToUpperIdempotent(role);
    SameUpperSameEffect(s, login, ToUpper(role), role, isAddRole);
  }

  /** "moderator" and "MODERATOR" have the same effect. */
  lemma LowerCaseModeratorActsAsCanonical(s: Store, login: string, isAddRole: bool)
    ensures ChangeRolesList(s, login, "moderator", isAddRole) == ChangeRolesList(s, login, "MODERATOR", isAddRole)
  {
    LowerCaseTokenNamesRole();
    RoleNameIsUpper(Moderator);
    SameUpperSameEffect(s, login, "moderator", "MODERATOR", isAddRole);
  }

  /** A token that names no role is refused, whatever the flag, and nothing is saved. */
  lemma UnknownRoleIsRefused(s: Store, login: string, isAddRole: bool)
    requires login in s
    ensures ChangeRolesList(s, login, "superuser", isAddRole) == Outcome(Failure(IncorrectRole), [])
  {
    UnknownTokenNamesNoRole();
  }

  /**
   * Granting a role the account lacks and then revoking it, in any spelling,
   * restores the repository.
   */
  lemma GrantThenRevokeRestores(s: Store, login: string, grant: string, revoke: string)
    requires login in s
    requires ParseRole(ToUpper(grant)).Some? && ToUpper(grant) == ToUpper(revoke)
    requires ParseRole(ToUpper(grant)).value !in s[login].roles
    ensures var t := After(s, ChangeRolesList(s, login, grant, true));
      After(t, ChangeRolesList(t, login, revoke, false)) == s
  {
    var r := ParseRole(ToUpper(grant)).value;
    var t := After(s, ChangeRolesList(s, login, grant, true));
    assert t[login].roles - {r} == s[login].roles;
    assert t[login := t[login].(roles := s[login].roles)] == s;
  }

  /** Revoking a role the account held before the grant removes it: the pair does not round-trip. */
  lemma GrantThenRevokeDropsHeldRole(s: Store, login: string)
    requires login in s && Moderator in s[login].roles
    ensures var t := After(s, ChangeRolesList(s, login, "moderator", true));
      && t == s
      && Moderator !in After(t, ChangeRolesList(t, login, "MODERATOR", false))[login].roles
  {
    LowerCaseTokenNamesRole();
    RoleNameIsUpper(Moderator);
    var t := After(s, ChangeRolesList(s, login, "moderator", true));
    assert t == s[login := s[login]];
  }

  /** `changePassword`: replaces the password with its encoding and saves, or `UserNotFound`. */
  function ChangePassword(s: Store, encode: string -> string, login: string, newPassword: string): (o: Outcome<()>)
    ensures o.result.Failure? <==> login !in s
    ensures login !in s ==> o.result.error == UserNotFound && o.writes == [] && After(s, o) == s
    ensures login in s ==>
      && After(s, o) == s[login := s[login].(password := encode(newPassword))]
      && o.writes == [Saved(s[login].(password := encode(newPassword)))]
  {
    if login !in s then Outcome(Failure(UserNotFound), [])
    else
      var account := s[login].(password := encode(newPassword));
      ApplySingle(s, Saved(account));
      Outcome(Success(()), [Saved(account)])
  }

  /** The login and password of the account the bootstrap creates. */
  const AdminLogin := "admin"

  /**
   * `run`: on startup, creates the administrator account unless an account
   * with its login exists.
   */
  function Bootstrap(s: Store, encode: string -> string): (o: Outcome<()>)
    ensures o.result.Success?
    ensures AdminLogin in s ==> o.writes == [] && After(s, o) == s
    ensures AdminLogin !in s ==>
      After(s, o) == s[AdminLogin := Account(AdminLogin, encode(AdminLogin), "", "", {Moderator, Administrator})]
  {
    if AdminLogin in s then Outcome(Success(()), [])
    else
      var account := Account(AdminLogin, encode(AdminLogin), "", "", {});
      var withModerator := AddRole(account, RoleName(Moderator)).value.0;
      var withAdministrator := AddRole(withModerator, RoleName(Administrator)).value.0;
      assert withAdministrator.roles == {Moderator, Administrator};
      ApplySingle(s, Saved(withAdministrator));
      Outcome(Success(()), [Saved(withAdministrator)])
  }

  /** Running the bootstrap twice leaves the repository as running it once. */
  lemma BootstrapIdempotent(s: Store, encode: string -> string)
    ensures var t := After(s, Bootstrap(s, encode));
      AdminLogin in t && After(t, Bootstrap(t, encode)) == t
  {
  }
}
