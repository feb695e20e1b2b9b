# Forum accounts: service, authorization policy and dispatch

This project models the accounting part of a small forum backend.

- **The account service (`UserAccountServiceImpl`).** It keeps a repository of user accounts keyed by login. It supports:
  - register, read, remove, partial update of the names;
  - add or remove a role;
  - change the password;
  - a start-up bootstrap that creates an `admin` account.
- **The authorization policy (`AuthorizationConfiguration`).** It is an ordered list of request matchers. The first entry that matches a request decides whether it may proceed.
- **The REST controller (`UserAccountController`).** It maps each request to exactly one service call. Its main choice is which login the call acts on: the path variable, the request body or the authenticated principal.

Modules:

- `Accounting` (`accounting.dfy`) holds the pieces shared by the others:
  - the account record;
  - the `Role` enumeration and the reading of a role token;
  - adding and removing a role;
  - the request and response payloads.
- `AccountStore` (`account_store.dfy`) describes every service operation as a pure function over the repository's content. The function returns what the service returns, plus the log of repository writes (`save`, `delete`) the operation issues. The lemmas about the operations live here.
- `AccountService` (`account_service.dfy`) is the service as a class. Its `accounts` map field is updated in place through `Save` and `Delete`, following the look-up, check, change, save pattern of the Java code. Each method is proved to produce exactly the result, new content and writes of its `AccountStore` function.
- `Authorization` (`authorization.dfy`) covers the policy:
  - path patterns with `{variable}` segments and a trailing double-star;
  - the access expressions;
  - the first-match decision `Allowed`;
  - the declared policy and its case-by-case reading;
  - a corrected policy (see Findings).
- `AccountController` (`account_controller.dfy`) holds the request-to-call function `Dispatch`. Its controller class hands a call to the service object.
- `AccountApi` (`account_api.dfy`) composes one request end to end: policy, then dispatch, then service. It states what a request, or a run of requests, can do to accounts other than the caller's.

Modelling assumptions:

- The password encoder is an arbitrary function `string -> string`, fixed when the service is created.
- `UserAccount` and `Role` are not part of this model; only their use by the service is.
  - Roles are the closed set USER, MODERATOR, ADMINISTRATOR.
  - `addRole` and `removeRole` insert or delete `Role.valueOf(token)` and report whether the set changed, as `Set.add` and `Set.remove` do. An unknown token throws.
  - A newly built account holds no role.

The role endpoints read as if adding a role and then removing it restores the account. The code restores it only when the account did not already hold the role: adding a held role is a no-op, and the removal then drops it. The model follows the code, and `AccountStore.GrantThenRevokeDropsHeldRole` shows the difference.

## Model

| member | source | states |
|---|---|---|
| Accounting.ParseRole | src/main/java/ait/forum/accounting/service/UserAccountServiceImpl.java:70-78 | a token is read as the role whose name it is exactly, and every other token is refused |
| Accounting.UpperOf | src/main/java/ait/forum/accounting/service/UserAccountServiceImpl.java:68 | one character's upper case is never empty, and an ASCII character's is that character with a-z raised |
| Accounting.ToUpper | src/main/java/ait/forum/accounting/service/UserAccountServiceImpl.java:68 | upper-casing never shortens a token |
| Accounting.AsciiToUpper | src/main/java/ait/forum/accounting/service/UserAccountServiceImpl.java:68 | on ASCII text upper-casing keeps the length and raises each letter a-z in place |
| Accounting.ToUpperIsUpper | src/main/java/ait/forum/accounting/service/UserAccountServiceImpl.java:68 | every character of an upper-cased token is left alone by upper-casing |
| Accounting.ToUpperAppend | src/main/java/ait/forum/accounting/service/UserAccountServiceImpl.java:68 | upper-casing a concatenation upper-cases each part |
| Accounting.ToUpperOfUpper | src/main/java/ait/forum/accounting/service/UserAccountServiceImpl.java:68 | a token made of upper-case characters is its own upper case |
| Accounting.ToUpperIdempotent | src/main/java/ait/forum/accounting/service/UserAccountServiceImpl.java:68 | upper-casing an upper-cased token changes nothing |
| Accounting.RoleNameIsUpper | src/main/java/ait/forum/accounting/service/UserAccountServiceImpl.java:98-99 | every role's name survives upper-casing and reads back as that role |
| Accounting.LowerCaseTokenNamesRole | src/main/java/ait/forum/accounting/service/UserAccountServiceImpl.java:68-72 | "moderator" upper-cases to "MODERATOR" and names the moderator role |
| Accounting.UnknownTokenNamesNoRole | src/main/java/ait/forum/accounting/service/UserAccountServiceImpl.java:76-77 | "superuser" names no role once upper-cased |
| Accounting.LongSActsAsS | src/main/java/ait/forum/accounting/service/UserAccountServiceImpl.java:68 | anywhere in a token, the long s (U+017F) upper-cases exactly like "s" |
| Accounting.SameUpperInterchangeable | src/main/java/ait/forum/accounting/service/UserAccountServiceImpl.java:68 | two characters with the same upper case, such as the dotless i (U+0131) and "i", are interchangeable anywhere in a token |
| Accounting.LongSSpelling | src/main/java/ait/forum/accounting/service/UserAccountServiceImpl.java:68 | "adminiſtrator" upper-cases like "administrator" |
| Accounting.AdministratorTokenIsUpper | src/main/java/ait/forum/accounting/service/UserAccountServiceImpl.java:68 | "administrator" upper-cases to "ADMINISTRATOR" |
| Accounting.LongSNamesAdministrator | src/main/java/ait/forum/accounting/service/UserAccountServiceImpl.java:68-72 | the token "adminiſtrator" is read as the administrator role |
| Accounting.AddRole | src/main/java/ait/forum/accounting/service/UserAccountServiceImpl.java:71-72 | adding fails exactly on an unknown token; otherwise the roles gain that role, nothing else changes, and the flag says whether the set grew |
| Accounting.RemoveRole | src/main/java/ait/forum/accounting/service/UserAccountServiceImpl.java:73-74 | removing fails exactly on an unknown token; otherwise the roles lose that role, nothing else changes, and the flag says whether the set shrank |
| Accounting.AddThenRemoveRestores | src/main/java/ait/forum/accounting/service/UserAccountServiceImpl.java:71-74 | adding a role the account lacks and then removing it gives the original account back, with both flags true |
| Accounting.AddThenRemoveDropsHeldRole | src/main/java/ait/forum/accounting/service/UserAccountServiceImpl.java:71-74 | adding a role the account holds changes nothing and reports no change; removing it then loses the role |
| Accounting.RoleNames | src/main/java/ait/forum/accounting/dto/UserDto.java:15-16 | the payload's role names are exactly the names of the account's roles, and each reads back as a held role |
| AccountStore.ApplyAppend | src/main/java/ait/forum/accounting/dao/UserAccountRepository.java:6 | replaying two runs of repository writes in turn is replaying them joined |
| AccountStore.Register | src/main/java/ait/forum/accounting/service/UserAccountServiceImpl.java:28-37 | a taken login fails with UserExists, writes nothing and leaves the repository as it was; a free login gains exactly one entry with the encoded password, the given names and no role, by exactly one save, and only that entry changes |
| AccountStore.GetUser | src/main/java/ait/forum/accounting/service/UserAccountServiceImpl.java:40-43 | never writes; fails with UserNotFound exactly when the login is absent; otherwise returns the stored account's summary |
| AccountStore.RemoveUser | src/main/java/ait/forum/accounting/service/UserAccountServiceImpl.java:46-50 | an absent login fails and writes nothing; otherwise one delete removes that login alone and the account as it was is returned |
| AccountStore.UpdateUser | src/main/java/ait/forum/accounting/service/UserAccountServiceImpl.java:53-63 | an absent login fails and writes nothing; otherwise only the supplied names change (login, password and roles are kept, other accounts untouched) and there is one save |
| AccountStore.UpdateWithEmptyEditKeepsAccount | src/main/java/ait/forum/accounting/service/UserAccountServiceImpl.java:55-61 | an edit with both names null leaves the repository as it was and returns the current summary |
| AccountStore.UpdateFirstNameOnly | src/main/java/ait/forum/accounting/service/UserAccountServiceImpl.java:55-60 | an edit with only a first name changes only that field of that account |
| AccountStore.ChangeRolesList | src/main/java/ait/forum/accounting/service/UserAccountServiceImpl.java:66-83 | an absent login fails with UserNotFound, then an unknown token with IncorrectRole, both without writes; otherwise the account's roles gain or lose the role, there is a save exactly when the set changed, and the result lists the new role names |
| AccountStore.ChangeRolesIgnoresCase | src/main/java/ait/forum/accounting/service/UserAccountServiceImpl.java:68 | a token and its upper-cased form have the same effect |
| AccountStore.LowerCaseModeratorActsAsCanonical | src/main/java/ait/forum/accounting/service/UserAccountServiceImpl.java:68-75 | "moderator" and "MODERATOR" have the same effect, for adding and for removing |
| AccountStore.UnknownRoleIsRefused | src/main/java/ait/forum/accounting/service/UserAccountServiceImpl.java:76-78 | "superuser" is refused with IncorrectRole and nothing is saved |
| AccountStore.GrantThenRevokeRestores | src/main/java/ait/forum/accounting/service/UserAccountServiceImpl.java:71-81 | granting a role the account lacks and revoking it, in any spelling, restores the repository |
| AccountStore.GrantThenRevokeDropsHeldRole | src/main/java/ait/forum/accounting/service/UserAccountServiceImpl.java:71-81 | granting a held role writes nothing, and revoking it afterwards leaves the account without it |
| AccountStore.ChangePassword | src/main/java/ait/forum/accounting/service/UserAccountServiceImpl.java:86-91 | an absent login fails and writes nothing; otherwise only the password changes, to the encoding of the new one, by one save |
| AccountStore.Bootstrap | src/main/java/ait/forum/accounting/service/UserAccountServiceImpl.java:94-102 | without an admin account, one is added with the encoded password "admin", empty names and the MODERATOR and ADMINISTRATOR roles; with one, nothing is written |
| AccountStore.BootstrapIdempotent | src/main/java/ait/forum/accounting/service/UserAccountServiceImpl.java:94-102 | after the bootstrap an admin account exists, and running it again changes nothing |
| AccountService.UserAccountServiceImpl.constructor | src/main/java/ait/forum/accounting/service/UserAccountServiceImpl.java:19-25 | the service starts on the given repository content and encoder with an empty write log |
| AccountService.UserAccountServiceImpl.ExistsById | src/main/java/ait/forum/accounting/service/UserAccountServiceImpl.java:29 | true exactly when the login is stored |
| AccountService.UserAccountServiceImpl.FindById | src/main/java/ait/forum/accounting/service/UserAccountServiceImpl.java:41 | finds the stored account exactly when the login is stored |
| AccountService.UserAccountServiceImpl.Save | src/main/java/ait/forum/accounting/service/UserAccountServiceImpl.java:35 | puts the account under its login and logs one save |
| AccountService.UserAccountServiceImpl.Delete | src/main/java/ait/forum/accounting/service/UserAccountServiceImpl.java:48 | removes the entry under the account's login and logs one delete |
| AccountService.UserAccountServiceImpl.Register | src/main/java/ait/forum/accounting/service/UserAccountServiceImpl.java:28-37 | returns, stores and logs exactly what AccountStore.Register describes |
| AccountService.UserAccountServiceImpl.GetUser | src/main/java/ait/forum/accounting/service/UserAccountServiceImpl.java:40-43 | returns what AccountStore.GetUser describes and changes nothing |
| AccountService.UserAccountServiceImpl.RemoveUser | src/main/java/ait/forum/accounting/service/UserAccountServiceImpl.java:46-50 | returns, stores and logs exactly what AccountStore.RemoveUser describes |
| AccountService.UserAccountServiceImpl.UpdateUser | src/main/java/ait/forum/accounting/service/UserAccountServiceImpl.java:53-63 | returns, stores and logs exactly what AccountStore.UpdateUser describes |
| AccountService.UserAccountServiceImpl.ChangeRolesList | src/main/java/ait/forum/accounting/service/UserAccountServiceImpl.java:66-83 | returns, stores and logs exactly what AccountStore.ChangeRolesList describes |
| AccountService.UserAccountServiceImpl.ChangePassword | src/main/java/ait/forum/accounting/service/UserAccountServiceImpl.java:86-91 | returns, stores and logs exactly what AccountStore.ChangePassword describes |
| AccountService.UserAccountServiceImpl.Run | src/main/java/ait/forum/accounting/service/UserAccountServiceImpl.java:94-102 | stores and logs exactly what AccountStore.Bootstrap describes |
| Authorization.MatchSegments | src/main/java/ait/forum/security/AuthorizationConfiguration.java:21-25 | a path matches a pattern exactly when it has the pattern's length (or more, with a double-star tail) and agrees on every literal segment; the bindings name exactly the pattern's variables, each bound to the path segment in its place |
| Authorization.FirstMatch | src/main/java/ait/forum/security/AuthorizationConfiguration.java:21-22 | a list of patterns fails to match exactly when none of them matches |
| Authorization.FirstMatchIsFirst | src/main/java/ait/forum/security/AuthorizationConfiguration.java:21-22 | when pattern k is the first that matches, the list's bindings are the ones pattern k makes |
| Authorization.Grants | src/main/java/ait/forum/security/AuthorizationConfiguration.java:21-26 | an anonymous request passes only an open entry or an ownership test whose login is the anonymous name; an authenticated owner passes every ownership test |
| Authorization.AllowedHasDecidingEntry | src/main/java/ait/forum/security/AuthorizationConfiguration.java:20-27 | an allowed request has a first matching entry, and that entry's access rule grants it |
| Authorization.FirstMatchDecides | src/main/java/ait/forum/security/AuthorizationConfiguration.java:20-27 | when entry k is the first that matches, its access rule alone decides |
| Authorization.NoMatchRefuses | src/main/java/ait/forum/security/AuthorizationConfiguration.java:20-27 | a request no entry matches is refused |
| Authorization.SwaggerMatch | src/main/java/ait/forum/security/AuthorizationConfiguration.java:21 | the documentation patterns match exactly /swagger-ui.html, /swagger-ui/... and /v3/api-docs/... |
| Authorization.OpenMatch | src/main/java/ait/forum/security/AuthorizationConfiguration.java:22 | the open patterns match exactly /account/register and /forum/posts/... |
| Authorization.RolePathMatch | src/main/java/ait/forum/security/AuthorizationConfiguration.java:23 | the role pattern matches exactly the five-segment paths /account/user/{login}/role/{role} |
| Authorization.UserPathMatch | src/main/java/ait/forum/security/AuthorizationConfiguration.java:24-25 | the user pattern matches exactly /account/user/{login} and binds login to the third segment |
| Authorization.AnyRequestMatches | src/main/java/ait/forum/security/AuthorizationConfiguration.java:26 | the catch-all entry matches every path |
| Authorization.PolicyEndsWithCatchAll | src/main/java/ait/forum/security/AuthorizationConfiguration.java:20-27 | the declared policy has six entries, and its last matches every request and demands authentication |
| Authorization.IntendedPolicyDiffersInOwnership | src/main/java/ait/forum/security/AuthorizationConfiguration.java:24-25 | the corrected policy keeps every entry's method and patterns and changes only the two ownership rules, each to also demand authentication |
| Authorization.EntriesMatch | src/main/java/ait/forum/security/AuthorizationConfiguration.java:21-26 | for the six declared matchers: which entries match a request and what the user pattern binds, whatever the access rules of entries 4 and 5 |
| Authorization.ShapedPolicyDecides | src/main/java/ait/forum/security/AuthorizationConfiguration.java:20-27 | a policy laid out like the declared one decides as the first matching entry's rule, case by case |
| Authorization.DeclaredAccessDecides | src/main/java/ait/forum/security/AuthorizationConfiguration.java:21-26 | with the declared access rules, the decision is the case-by-case reading Expected |
| Authorization.IntendedAccessDecides | src/main/java/ait/forum/security/AuthorizationConfiguration.java:21-26 | with the corrected access rules, the decision is the case-by-case reading IntendedExpected |
| Authorization.PolicyDecides | src/main/java/ait/forum/security/AuthorizationConfiguration.java:20-27 | the declared policy allows a request exactly as Expected reads it: open paths for all, role paths for administrators, PUT on a user path for the name equal to the login, DELETE there also for administrators, anything else for any authenticated caller |
| Authorization.IntendedPolicyDecides | src/main/java/ait/forum/security/AuthorizationConfiguration.java:24-25 | the corrected policy allows a request exactly as IntendedExpected reads it |
| Authorization.OpenPathsArePermitted | src/main/java/ait/forum/security/AuthorizationConfiguration.java:21-22 | documentation, registration and post listings are allowed to anyone by any method |
| Authorization.RoleChangeNeedsAdministrator | src/main/java/ait/forum/security/AuthorizationConfiguration.java:23 | any method on a role path is allowed exactly to an administrator, whoever the path's login is |
| Authorization.EditIsOwnerOnly | src/main/java/ait/forum/security/AuthorizationConfiguration.java:24 | PUT /account/user/{login} is allowed exactly when the caller's name is that login; administrators get no exemption |
| Authorization.RemovalIsOwnerOrAdministrator | src/main/java/ait/forum/security/AuthorizationConfiguration.java:25 | DELETE /account/user/{login} is allowed exactly when the caller's name is that login or the caller is an administrator |
| Authorization.OtherRequestsNeedAuthentication | src/main/java/ait/forum/security/AuthorizationConfiguration.java:26 | a request no earlier entry matches is allowed exactly to an authenticated caller, under both policies |
| Authorization.ReadingNeedsAuthentication | src/main/java/ait/forum/security/AuthorizationConfiguration.java:26 | GET /account/user/{login} is allowed exactly to an authenticated caller |
| Authorization.PasswordChangeNeedsAuthentication | src/main/java/ait/forum/security/AuthorizationConfiguration.java:26 | PUT /account/password is allowed exactly to an authenticated caller |
| Authorization.SinglePostNeedsAuthentication | src/main/java/ait/forum/security/AuthorizationConfiguration.java:22-26 | /forum/post/{id} is not opened by /forum/posts/** and is allowed exactly to an authenticated caller |
| Authorization.AnonymousOwnsAnonymousUser | src/main/java/ait/forum/security/AuthorizationConfiguration.java:24-25 | an anonymous PUT or DELETE of /account/user/anonymousUser passes the declared policy |
| Authorization.AnonymousOnlyOnOpenPaths | src/main/java/ait/forum/security/AuthorizationConfiguration.java:20-27 | under the corrected policy an anonymous request is allowed exactly on the open paths |
| Authorization.IntendedAgreesForPrincipals | src/main/java/ait/forum/security/AuthorizationConfiguration.java:24-25 | the correction decides every authenticated request as the declared policy does |
| AccountController.Dispatch | src/main/java/ait/forum/accounting/controller/UserAccountController.java:21-60 | each handled method and path gives one service call. Register takes the body; login and password change act on the authenticated principal's name; read (GET, and HEAD through the GET handler), remove and edit take the path login; the role flag is true exactly for PUT. A missing body or header is a client error, a missing principal fails before any call, and an unmapped request has no handler |
| AccountController.Execute | src/main/java/ait/forum/accounting/service/UserAccountServiceImpl.java:28-91 | every service call writes at most once and not at all when it fails or only reads; registration fails exactly on a taken login, every other call fails with UserNotFound on an absent login, and every call other than a role change succeeds on a present one |
| AccountController.UserAccountController.Perform | src/main/java/ait/forum/accounting/controller/UserAccountController.java:21-60 | the service object runs the dispatched call with exactly the result, new content and writes of the matching AccountStore function |
| AccountApi.Handle | src/main/java/ait/forum/security/AuthorizationConfiguration.java:20-27 | a request the policy refuses is denied and one the dispatcher stops is rejected, both without writes; an allowed and dispatched request is served with the call's own result and writes |
| AccountApi.PasswordChangesOnlyForCaller | src/main/java/ait/forum/accounting/controller/UserAccountController.java:56-60 | under any policy, a request changes the password of a remaining account only when its authenticated caller is that account |
| AccountApi.PoliciesGuardRolePaths | src/main/java/ait/forum/security/AuthorizationConfiguration.java:23 | both policies let only administrators reach the role paths |
| AccountApi.RolesGrowOnlyForAdministrators | src/main/java/ait/forum/accounting/controller/UserAccountController.java:46-54 | under a policy guarding the role paths, a request by a non-administrator leaves every account with at most its old roles, and a new account with none |
| AccountApi.NonAdministratorsNeverGainRoles | src/main/java/ait/forum/security/AuthorizationConfiguration.java:23 | over any run of requests by non-administrators, no account gains a role |
| AccountApi.IntendedPolicyGuardsOwnership | src/main/java/ait/forum/security/AuthorizationConfiguration.java:24-25 | the corrected policy lets an edit through only for the login's own principal, and a removal only for it or an authenticated administrator |
| AccountApi.RemovalNeedsOwnerOrAdministrator | src/main/java/ait/forum/accounting/controller/UserAccountController.java:36-39 | under such a policy an account leaves the repository only at the request of its own principal or of an administrator |
| AccountApi.RenameNeedsOwner | src/main/java/ait/forum/accounting/controller/UserAccountController.java:41-44 | under such a policy only an account's own principal changes its names |
| AccountApi.AnonymousRemovesAnonymousUser | src/main/java/ait/forum/security/AuthorizationConfiguration.java:25 | under the declared policy, a DELETE without credentials removes the account named anonymousUser |
| AccountApi.AnonymousRemovalBreaksOwnership | src/main/java/ait/forum/security/AuthorizationConfiguration.java:25 | a policy that lets an anonymous request remove an account does not guard ownership |
| AccountApi.PolicyDoesNotGuardOwnership | src/main/java/ait/forum/security/AuthorizationConfiguration.java:24-25 | the declared policy does not guard ownership: it lets an anonymous removal through |

## Left out

- Spring wiring: `httpBasic`, CSRF, the filter chain's construction, Jackson and Lombok. Only the decision the rule list expresses is modelled.
- Authentication itself, meaning the credential check behind basic auth. The caller arrives as either a principal (name and roles) or the anonymous token.
- Password hashing: the encoder is an arbitrary function parameter, with no property assumed.
- ModelMapper. It is replaced by explicit field-by-field functions (`FromRegisterDto`, `ToUserDto`, `ToRolesDto`).
- The repository's persistence. It is a map from login to account, and writes are replayed in order.
- Concurrency. Calls are sequential and atomic, so the window between `existsById` and `save` in `register` is not modelled.
- The post subsystem (`PostService`, posts, comments, tags). Its implementation is not part of this model. Its single-post paths appear only as requests that need authentication.
- `ToUpper`: models `String.toUpperCase` in the root locale for every character whose upper case is made of ASCII letters: a-z, the dotless i, the long s, the sharp s and the ligatures U+FB00 to U+FB06. Every other character is kept as it is; its real upper case holds a non-ASCII character either way, so no role name can come out of it. The default locale is assumed to upper-case as the root locale does, so not Turkish, Azerbaijani or Lithuanian. Under Turkish or Azerbaijani, "i" upper-cases to "İ" (U+0130), and "administrator" or "moderator" in lower case would be refused. Under Lithuanian, a combining dot above (U+0307) after a soft-dotted letter such as "i" is dropped, so "admini\u0307strator" would be read as ADMINISTRATOR, while the model keeps the dot and refuses that token.
- Spring's `ROLE_` prefix for `hasRole`. An administrator is a principal whose role set holds ADMINISTRATOR.
- `UserAccount` and `Role` are not part of this model. The enumeration is assumed to be USER, MODERATOR, ADMINISTRATOR, and fresh accounts are assumed to start without roles. The test fixtures hint otherwise: they expect a registered user's summary to list "USER" (src/test/java/ait/forum/accounting/service/UserAccountServiceTest.java:48). If the constructor grants USER, `AccountStore.Register` and `AccountStore.Bootstrap` miss that role, and `AccountApi.RolesGrowOnlyForAdministrators` would have to allow it on new accounts.
- Request parsing:
  - JSON bodies arrive already read into the handler's DTO, or as absent.
  - Paths arrive as decoded segments, so path normalisation, trailing slashes and URL decoding are not modelled.
  - A wrong method on a mapped path counts as having no handler, like an unmapped path.
  - HEAD on a path with a GET handler runs that handler. OPTIONS is answered by the framework without calling a handler, so it counts as having no handler.
- Null fields of the register payload. Names and logins are plain strings; only the edit payload's null fields are modelled, as `None`.
- Error-to-status mapping (the HTTP status codes for the service's exceptions). Outcomes carry the error itself.

## Findings

| source | as written | input that shows it | evidently intended | confidence | as-written member | corrected member |
|---|---|---|---|---|---|---|
| src/main/java/ait/forum/security/AuthorizationConfiguration.java:24-25 | the ownership expression `#login == authentication.name` is checked without requiring authentication, and an anonymous request's authentication has the name "anonymousUser" | DELETE /account/user/anonymousUser (or PUT with an edit) with no credentials, while an account with login "anonymousUser" exists | edits and removals of /account/user/{login} are for that login's authenticated user (removals also for administrators), as everywhere else outside the open paths | medium, not executed | AccountApi.AnonymousRemovesAnonymousUser | AccountApi.IntendedPolicyGuardsOwnership |
