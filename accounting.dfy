/**
 * The account record, its roles and the data-transfer shapes of the
 * accounting part of the forum: what a `UserAccount` holds, how a role token
 * is read, and how an account is turned into the payloads the service returns.
 */
module Accounting {

  datatype Option<T> = None | Some(value: T)

  datatype Result<T, E> = Success(value: T) | Failure(error: E)

  /** The three failures the account service raises. */
  datatype Error = UserExists | UserNotFound | IncorrectRole

  /** The closed enumeration of roles an account can hold. */
  datatype Role = User | Moderator | Administrator

  /** `Role.name()`: the enum constant's name. */
  function RoleName(r: Role): string
  {
    match r
    case User => "USER"
    case Moderator => "MODERATOR"
    case Administrator => "ADMINISTRATOR"
  }

  /**
   * `Role.valueOf`: the role whose name is exactly `token`; `None` stands for
   * the IllegalArgumentException thrown for any other token.
   */
  function ParseRole(token: string): (r: Option<Role>)
    ensures r.Some? ==> RoleName(r.value) == token
    ensures forall role :: RoleName(role) == token ==> r == Some(role)
  {
    if token == "USER" then Some(User)
    else if token == "MODERATOR" then Some(Moderator)
    else if token == "ADMINISTRATOR" then Some(Administrator)
    else None
  }

  /** A character of the 7-bit ASCII range. */
  predicate IsAscii(c: char)
  {
    c as int < 128
  }

  /** Upper-casing of one ASCII character: only the letters a-z change. */
  function UpperChar(c: char): char
  {
    if 'a' <= c <= 'z' then (c as int - 32) as char else c
  }

  /**
   * The upper case of one character, as `String.toUpperCase` gives it in the
   * root locale, for every character whose upper case is made of ASCII
   * letters: a-z, the dotless i, the long s, the sharp s and the Latin
   * ligatures U+FB00 to U+FB06. Every other character is kept as it is:
   * Java either keeps it too, or gives an upper case that still holds a
   * non-ASCII character, which no role name does.
   */
  function UpperOf(c: char): (u: string)
    ensures |u| >= 1
    ensures IsAscii(c) ==> u == [UpperChar(c)]
  {
    if 'a' <= c <= 'z' then [UpperChar(c)]
    else if c == '\U{0131}' then "I"
    else if c == '\U{017F}' then "S"
    else if c == '\U{00DF}' then "SS"
    else if c == '\U{FB00}' then "FF"
    else if c == '\U{FB01}' then "FI"
    else if c == '\U{FB02}' then "FL"
    else if c == '\U{FB03}' then "FFI"
    else if c == '\U{FB04}' then "FFL"
    else if c == '\U{FB05}' || c == '\U{FB06}' then "ST"
    else [c]
  }

  /** A character upper-casing leaves as it is. */
  predicate IsUpper(c: char)
  {
    UpperOf(c) == [c]
  }

  /** Every character of an upper case is itself upper case. */
  lemma UpperOfIsUpper(c: char)
    ensures forall i :: 0 <= i < |UpperOf(c)| ==> IsUpper(UpperOf(c)[i])
  {
    var u := UpperOf(c);
    forall i | 0 <= i < |u| ensures IsUpper(u[i]) {
      if 'a' <= c <= 'z' {
        assert u[i] == UpperChar(c);
      } else {
        assert u[i] == c || 'A' <= u[i] <= 'Z';
      }
    }
  }

  /** `String.toUpperCase` in the root locale, character by character. */
  function ToUpper(s: string): (u: string)
    ensures |u| >= |s|
  {
    if s == [] then [] else UpperOf(s[0]) + ToUpper(s[1..])
  }

  /** On ASCII text upper-casing keeps the length and maps each letter on its own. */
  lemma {:induction false} AsciiToUpper(s: string, t: string)
    requires |s| == |t|
    requires forall i :: 0 <= i < |s| ==> IsAscii(s[i]) && UpperChar(s[i]) == t[i]
    ensures ToUpper(s) == t
    decreases |s|
  {
    if s != [] {
      assert IsAscii(s[0]);
      AsciiToUpper(s[1..], t[1..]);
      assert t == [t[0]] + t[1..];
    }
  }

  /** Every character of an upper-cased string is upper case. */
  lemma {:induction false} ToUpperIsUpper(s: string)
    ensures forall i :: 0 <= i < |ToUpper(s)| ==> IsUpper(ToUpper(s)[i])
    decreases |s|
  {
    if s != [] {
      UpperOfIsUpper(s[0]);
      ToUpperIsUpper(s[1..]);
      var u, rest := UpperOf(s[0]), ToUpper(s[1..]);
      assert ToUpper(s) == u + rest;
      assert forall i :: |u| <= i < |u + rest| ==> (u + rest)[i] == rest[i - |u|];
    }
  }

  /** Upper-casing a concatenation upper-cases each part. */
  lemma {:induction false} ToUpperAppend(a: string, b: string)
    ensures ToUpper(a + b) == ToUpper(a) + ToUpper(b)
    decreases |a|
  {
    if a == [] {
      assert a + b == b;
    } else {
      assert (a + b)[0] == a[0] && (a + b)[1..] == a[1..] + b;
      ToUpperAppend(a[1..], b);
    }
  }

  /** A string of upper-case characters is its own upper case. */
  lemma {:induction false} ToUpperOfUpper(s: string)
    requires forall i :: 0 <= i < |s| ==> IsUpper(s[i])
    ensures ToUpper(s) == s
    decreases |s|
  {
    if s != [] {
      assert IsUpper(s[0]);
      ToUpperOfUpper(s[1..]);
    }
  }

  /** Upper-casing twice is upper-casing once. */
  lemma ToUpperIdempotent(s: string)
    ensures ToUpper(ToUpper(s)) == ToUpper(s)
  {
    ToUpperIsUpper(s);
    ToUpperOfUpper(ToUpper(s));
  }

  /** Every role name is already upper case, so upper-casing it changes nothing. */
  lemma RoleNameIsUpper(r: Role)
    ensures ToUpper(RoleName(r)) == RoleName(r)
    ensures ParseRole(ToUpper(RoleName(r))) == Some(r)
  {
    AsciiToUpper(RoleName(r), RoleName(r));
  }

  /** The lower-case token "moderator" names the moderator role once upper-cased. */
  lemma LowerCaseTokenNamesRole()
    ensures ToUpper("moderator") == "MODERATOR"
    ensures ParseRole(ToUpper("moderator")) == Some(Moderator)
  {
    AsciiToUpper("moderator", "MODERATOR");
  }

  /** The token "superuser" names no role, whatever its case. */
  lemma UnknownTokenNamesNoRole()
    ensures ParseRole(ToUpper("superuser")) == None
  {
    AsciiToUpper("superuser", "SUPERUSER");
  }

  /**
   * Two characters with the same upper case, such as the dotless i and "i" or
   * the long s and "s", are interchangeable anywhere in a token.
   */
  lemma SameUpperInterchangeable(a: string, b: string, c: char, d: char)
    requires UpperOf(c) == UpperOf(d)
    ensures ToUpper(a + [c] + b) == ToUpper(a + [d] + b)
  {
    ToUpperAppend(a, [c]);
    ToUpperAppend(a + [c], b);
    ToUpperAppend(a, [d]);
    ToUpperAppend(a + [d], b);
    assert ToUpper([c]) == UpperOf(c) + ToUpper([]);
    assert ToUpper([d]) == UpperOf(d) + ToUpper([]);
  }

  /** Anywhere in a token, the long s upper-cases like "s". */
  lemma LongSActsAsS(a: string, b: string)
    ensures ToUpper(a + "\U{017F}" + b) == ToUpper(a + "s" + b)
  {
    SameUpperInterchangeable(a, b, '\U{017F}', 's');
  }

  /** "admini\U{017F}trator", spelt with a long s, upper-cases like "administrator". */
  lemma LongSSpelling()
    ensures ToUpper("admini\U{017F}trator") == ToUpper("administrator")
  {
    LongSActsAsS("admini", "trator");
    assert "admini" + "\U{017F}" + "trator" == "admini\U{017F}trator";
    assert "admini" + "s" + "trator" == "administrator";
  }

  /** The lower-case token "administrator" upper-cases to the role's name. */
  lemma AdministratorTokenIsUpper()
    ensures ToUpper("administrator") == "ADMINISTRATOR"
  {
    AsciiToUpper("administrator", "ADMINISTRATOR");
  }

  /** So the long-s spelling names the administrator role. */
  lemma LongSNamesAdministrator()
    ensures ParseRole(ToUpper("admini\U{017F}trator")) == Some(Administrator)
  {
    LongSSpelling();
    AdministratorTokenIsUpper();
  }

  /** `UserAccount`: the record the repository stores under its login. */
  datatype Account = Account(
    login: string,
    password: string,
    firstName: string,
    lastName: string,
    roles: set<Role>)

  /**
   * `UserAccount.addRole(String)`: adds `Role.valueOf(token)` to the roles and
   * reports whether the set grew (`Set.add`); `None` is the exception an
   * unknown token raises.
   */
  function AddRole(a: Account, token: string): (r: Option<(Account, bool)>)
    ensures r.None? <==> ParseRole(token).None?
    ensures r.Some? ==> r.value.0.roles == a.roles + {ParseRole(token).value}
    ensures r.Some? ==> r.value.0.(roles := a.roles) == a
    ensures r.Some? ==> (r.value.1 <==> r.value.0.roles != a.roles)
  {
    match ParseRole(token)
    case None => None
    case Some(role) => Some((a.(roles := a.roles + {role}), role !in a.roles))
  }

  /**
   * `UserAccount.removeRole(String)`: removes `Role.valueOf(token)` from the
   * roles and reports whether the set shrank (`Set.remove`); `None` is the
   * exception an unknown token raises.
   */
  function RemoveRole(a: Account, token: string): (r: Option<(Account, bool)>)
    ensures r.None? <==> ParseRole(token).None?
    ensures r.Some? ==> r.value.0.roles == a.roles - {ParseRole(token).value}
    ensures r.Some? ==> r.value.0.(roles := a.roles) == a
    ensures r.Some? ==> (r.value.1 <==> r.value.0.roles != a.roles)
  {
    match ParseRole(token)
    case None => None
    case Some(role) => Some((a.(roles := a.roles - {role}), role in a.roles))
  }

  /** Adding a role the account lacks and then removing it restores the account. */
  lemma AddThenRemoveRestores(a: Account, token: string)
    requires ParseRole(token).Some? && ParseRole(token).value !in a.roles
    ensures AddRole(a, token).Some? && AddRole(a, token).value.1
    ensures RemoveRole(AddRole(a, token).value.0, token) == Some((a, true))
  {
    var b := AddRole(a, token).value.0;
    assert b.roles - {ParseRole(token).value} == a.roles;
  }

  /** Adding a role the account already holds and then removing it drops the role. */
  lemma AddThenRemoveDropsHeldRole(a: Account, token: string)
    requires ParseRole(token).Some? && ParseRole(token).value in a.roles
    ensures AddRole(a, token) == Some((a, false))
    ensures RemoveRole(a, token).value.0.roles == a.roles - {ParseRole(token).value} != a.roles
  {
  }

  /** `UserRegisterDto`: the body of a registration request. */
  datatype UserRegisterDto = UserRegisterDto(
    login: string,
    password: string,
    firstName: string,
    lastName: string)

  /** `UserEditDto`: a partial edit; `None` is a field left null in the request. */
  datatype UserEditDto = UserEditDto(firstName: Option<string>, lastName: Option<string>)

  /** `UserDto`: the account summary sent back; it has no password. */
  datatype UserDto = UserDto(login: string, firstName: string, lastName: string, roles: set<string>)

  /** `RolesDto`: the login and its role names after a role change. */
  datatype RolesDto = RolesDto(login: string, roles: set<string>)

  /** The names of a set of roles, as the payloads carry them. */
  function RoleNames(roles: set<Role>): (names: set<string>)
    ensures forall r :: r in roles <==> RoleName(r) in names
    ensures forall n :: n in names ==> ParseRole(n).Some? && ParseRole(n).value in roles
  {
    set r | r in roles :: RoleName(r)
  }

  /** The account a registration creates before its password is encoded. */
  function FromRegisterDto(dto: UserRegisterDto): Account
  {
    Account(dto.login, dto.password, dto.firstName, dto.lastName, {})
  }

  function ToUserDto(a: Account): UserDto
  {
    UserDto(a.login, a.firstName, a.lastName, RoleNames(a.roles))
  }

  function ToRolesDto(a: Account): RolesDto
  {
    RolesDto(a.login, RoleNames(a.roles))
  }
}
