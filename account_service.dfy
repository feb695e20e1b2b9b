/**
 * `UserAccountServiceImpl`: the account service as an object over the
 * repository it updates in place. Each operation looks the account up, fails
 * on a precondition, changes the fetched record, and then saves or deletes
 * it; every method is proved to do exactly what the matching function of
 * `AccountStore` describes.
 */
module AccountService {
  import opened Accounting
  import opened AccountStore

  class UserAccountServiceImpl {
    /** The content of the account repository, by login. */
    var accounts: Store
    /** Every `save` and `delete` this service has issued to the repository, in order. */
    var writes: seq<Write>
    /** The repository content when the service was created. */
    ghost const initial: Store
    /** The injected password encoder. */
    const encode: string -> string

    /** The repository holds the initial content with the service's writes replayed on it. */
    ghost predicate Valid()
      reads this
    {
      accounts == Apply(initial, writes)
    }

    constructor (repository: Store, encoder: string -> string)
      ensures Valid()
      ensures accounts == repository && writes == [] && encode == encoder
    {
      accounts := repository;
      writes := [];
      initial := repository;
      encode := encoder;
    }

    /** `existsById` on the repository. */
    method ExistsById(login: string) returns (b: bool)
      ensures b <==> login in accounts
    {
      b := login in accounts;
    }

    /** `findById` on the repository. */
    method FindById(login: string) returns (found: Option<Account>)
      ensures found.Some? <==> login in accounts
      ensures found.Some? ==> found.value == accounts[login]
    {
      found := if login in accounts then Some(accounts[login]) else None;
    }

    /** `save` on the repository: the account replaces whatever was under its login. */
    method Save(account: Account)
      requires Valid()
      modifies this
      ensures Valid()
      ensures accounts == Apply(old(accounts), [Saved(account)])
      ensures writes == old(writes) + [Saved(account)]
    {
      ApplySingle(accounts, Saved(account));
      ApplyAppend(initial, writes, [Saved(account)]);
      accounts := ApplyWrite(accounts, Saved(account));
      writes := writes + [Saved(account)];
    }

    /** `delete` on the repository: the entry under the account's login goes away. */
    method Delete(account: Account)
      requires Valid()
      modifies this
      ensures Valid()
      ensures accounts == Apply(old(accounts), [Deleted(account)])
      ensures writes == old(writes) + [Deleted(account)]
    {
      ApplySingle(accounts, Deleted(account));
      ApplyAppend(initial, writes, [Deleted(account)]);
      accounts := ApplyWrite(accounts, Deleted(account));
      writes := writes + [Deleted(account)];
    }

    method Register(dto: UserRegisterDto) returns (r: Result<UserDto, Error>)
      requires Valid()
      modifies this
      ensures Valid()
      ensures var o := AccountStore.Register(old(accounts), encode, dto);
        r == o.result && accounts == After(old(accounts), o) && writes == old(writes) + o.writes
    {
      var taken := ExistsById(dto.login);
      if taken {
        return Failure(UserExists);
      }
      var account := FromRegisterDto(dto);
      var password := encode(dto.password);
      account := account.(password := password);
      Save(account);
      r := Success(ToUserDto(account));
    }

    method GetUser(login: string) returns (r: Result<UserDto, Error>)
      ensures r == AccountStore.GetUser(accounts, login).result
    {
      var found := FindById(login);
      if found.None? {
        return Failure(UserNotFound);
      }
      r := Success(ToUserDto(found.value));
    }

    method RemoveUser(login: string) returns (r: Result<UserDto, Error>)
      requires Valid()
      modifies this
      ensures Valid()
      ensures var o := AccountStore.RemoveUser(old(accounts), login);
        r == o.result && accounts == After(old(accounts), o) && writes == old(writes) + o.writes
    {
      var found := FindById(login);
      if found.None? {
        return Failure(UserNotFound);
      }
      var account := found.value;
      Delete(account);
      r := Success(ToUserDto(account));
    }

    method UpdateUser(login: string, edit: UserEditDto) returns (r: Result<UserDto, Error>)
      requires Valid()
      modifies this
      ensures Valid()
      ensures var o := AccountStore.UpdateUser(old(accounts), login, edit);
        r == o.result && accounts == After(old(accounts), o) && writes == old(writes) + o.writes
    {
      var found := FindById(login);
      if found.None? {
        return Failure(UserNotFound);
      }
      var account := found.value;
      if edit.firstName.Some? {
        account := account.(firstName := edit.firstName.value);
      }
      if edit.lastName.Some? {
        account := account.(lastName := edit.lastName.value);
      }
      Save(account);
      r := Success(ToUserDto(account));
    }

    method ChangeRolesList(login: string, role: string, isAddRole: bool) returns (r: Result<RolesDto, Error>)
      requires Valid()
      modifies this
      ensures Valid()
      ensures var o := AccountStore.ChangeRolesList(old(accounts), login, role, isAddRole);
        r == o.result && accounts == After(old(accounts), o) && writes == old(writes) + o.writes
    {
      var found := FindById(login);
      if found.None? {
        return Failure(UserNotFound);
      }
      var account := found.value;
      var token := ToUpper(role);
      var changed := if isAddRole then AddRole(account, token) else RemoveRole(account, token);
      if changed.None? {
        return Failure(IncorrectRole);
      }
      var res: bool;
      account, res := changed.value.0, changed.value.1;
      if res {
        Save(account);
      }
      r := Success(ToRolesDto(account));
    }

    method ChangePassword(login: string, newPassword: string) returns (r: Result<(), Error>)
      requires Valid()
      modifies this
      ensures Valid()
      ensures var o := AccountStore.ChangePassword(old(accounts), encode, login, newPassword);
        r == o.result && accounts == After(old(accounts), o) && writes == old(writes) + o.writes
    {
      var found := FindById(login);
      if found.None? {
        return Failure(UserNotFound);
      }
      var account := found.value;
      var password := encode(newPassword);
      account := account.(password := password);
      Save(account);
      r := Success(());
    }

    /** `run`: the startup bootstrap of the administrator account. */
    method Run()
      requires Valid()
      modifies this
      ensures Valid()
      ensures var o := Bootstrap(old(accounts), encode);
        accounts == After(old(accounts), o) && writes == old(writes) + o.writes
    {
      var taken := ExistsById(AdminLogin);
      if !taken {
        var password := encode(AdminLogin);
        var account := Account(AdminLogin, password, "", "", {});
        account := AddRole(account, RoleName(Moderator)).value.0;
        account := AddRole(account, RoleName(Administrator)).value.0;
        Save(account);
      }
    }
  }
}
