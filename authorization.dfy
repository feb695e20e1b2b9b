/**
 * The access policy in front of the HTTP endpoints: an ordered list of
 * (HTTP method, path patterns) -> access rule entries, consulted in order, where
 * the first entry whose matcher fits the request decides.
 *
 * Paths are sequences of segments ("/account/user/bob" is
 * ["account", "user", "bob"]). A pattern is a sequence of literal and
 * variable segments, optionally followed by a double-star tail, which matches
 * any number of further segments, none included.
 */
module Authorization {
  import opened Accounting

  datatype HttpMethod = Get | Head | Post | Put | Patch | Delete | Options | Trace

  /**
   * Who sends the request: an authenticated principal with its name and roles,
   * or the anonymous token installed when no credentials are given.
   */
  datatype Authentication = Anonymous | Principal(name: string, roles: set<Role>)

  /** The name the anonymous token reports as `authentication.name`. */
  const AnonymousName := "anonymousUser"

  /** `authentication.name` */
  function NameOf(auth: Authentication): string
  {
    if auth.Anonymous? then AnonymousName else auth.name
  }

  /** `hasRole(role)`: only an authenticated principal holding the role passes. */
  predicate HasRole(auth: Authentication, role: Role)
  {
    auth.Principal? && role in auth.roles
  }

  datatype Segment = Literal(text: string) | Variable(name: string)

  /** A path pattern; `anyTail` is a trailing double-star segment. */
  datatype Pattern = Pattern(segments: seq<Segment>, anyTail: bool)

  /** The values the path variables take in a matched path. */
  type Bindings = map<string, string>

  /** Whether `path` fits `segments` (and the tail rule): the non-recursive reading of a match. */
  ghost predicate Fits(segments: seq<Segment>, anyTail: bool, path: seq<string>)
  {
    && (|path| == |segments| || (anyTail && |path| > |segments|))
    && forall i :: 0 <= i < |segments| && segments[i].Literal? ==> path[i] == segments[i].text
  }

  /** The names of the variable segments. */
  function VariablesOf(segments: seq<Segment>): set<string>
  {
    set i | 0 <= i < |segments| && segments[i].Variable? :: segments[i].name
  }

  /** No variable name occurs twice. */
  ghost predicate DistinctVariables(segments: seq<Segment>)
  {
    forall i, j :: 0 <= i < j < |segments| && segments[i].Variable? && segments[j].Variable? ==>
      segments[i].name != segments[j].name
  }

  /**
   * Matches a path against the segments of a pattern, binding each variable
   * segment to the path segment in its place.
   */
  function MatchSegments(segments: seq<Segment>, anyTail: bool, path: seq<string>): (m: Option<Bindings>)
    ensures m.Some? <==> Fits(segments, anyTail, path)
    ensures m.Some? ==> m.value.Keys == VariablesOf(segments)
    ensures m.Some? && DistinctVariables(segments) ==>
      forall i :: 0 <= i < |segments| && segments[i].Variable? ==> m.value[segments[i].name] == path[i]
    decreases |segments|
  {
    if segments == [] then
      if path == [] || anyTail then Some(map[]) else None
    else if path == [] then None
    else
      var rest := MatchSegments(segments[1..], anyTail, path[1..]);
      VariablesOfCons(segments);
      match segments[0]
      case Literal(text) =>
        if path[0] == text then rest else None
      case Variable(name) =>
        if rest.None? then None else Some(rest.value[name := path[0]])
  }

  /** The variables of a non-empty pattern are its head's, if any, and its tail's. */
  lemma VariablesOfCons(segments: seq<Segment>)
    requires segments != []
    ensures VariablesOf(segments) ==
      (if segments[0].Variable? then {segments[0].name} else {}) + VariablesOf(segments[1..])
  {
    var tail := segments[1..];
    forall v | v in VariablesOf(segments)
      ensures v in (if segments[0].Variable? then {segments[0].name} else {}) + VariablesOf(tail)
    {
      var i :| 0 <= i < |segments| && segments[i].Variable? && segments[i].name == v;
      if i > 0 {
        assert tail[i - 1] == segments[i];
      }
    }
    forall v | v in VariablesOf(tail) ensures v in VariablesOf(segments) {
      var i :| 0 <= i < |tail| && tail[i].Variable? && tail[i].name == v;
      assert segments[i + 1] == tail[i];
    }
  }

  function Match(p: Pattern, path: seq<string>): Option<Bindings>
  {
    MatchSegments(p.segments, p.anyTail, path)
  }

  /** The bindings of the first pattern in the list that matches. */
  function FirstMatch(patterns: seq<Pattern>, path: seq<string>): (m: Option<Bindings>)
    ensures m.None? <==> forall i :: 0 <= i < |patterns| ==> Match(patterns[i], path).None?
    decreases |patterns|
  {
    if patterns == [] then None
    else if Match(patterns[0], path).Some? then Match(patterns[0], path)
    else
      var m := FirstMatch(patterns[1..], path);
      assert forall i :: 1 <= i < |patterns| ==> patterns[i] == patterns[1..][i - 1];
      m
  }

  /** When pattern `k` is the first that matches, the bindings are the ones it makes. */
  lemma {:induction false} FirstMatchIsFirst(patterns: seq<Pattern>, k: nat, path: seq<string>)
    requires k < |patterns| && Match(patterns[k], path).Some?
    requires forall j :: 0 <= j < k ==> Match(patterns[j], path).None?
    ensures FirstMatch(patterns, path) == Match(patterns[k], path)
    decreases k
  {
    if k > 0 {
      assert forall j :: 0 <= j < k - 1 ==> patterns[1..][j] == patterns[j + 1];
      FirstMatchIsFirst(patterns[1..], k - 1, path);
    }
  }

  /** What an entry demands of the request's authentication. */
  datatype Access =
    | PermitAll
    | HasRoleAccess(role: Role)
    | Authenticated
    /** `#login == authentication.name` */
    | Owner
    /** `#login == authentication.name or hasRole(role)` */
    | OwnerOrRole(role: Role)
    /** `isAuthenticated() and #login == authentication.name` */
    | AuthenticatedOwner
    /** `isAuthenticated() and (#login == authentication.name or hasRole(role))` */
    | AuthenticatedOwnerOrRole(role: Role)

  /** One `requestMatchers(...)` entry: `verb` is `None` when the entry names no HTTP method. */
  datatype Rule = Rule(verb: Option<HttpMethod>, patterns: seq<Pattern>, access: Access)

  /** The path variable `#login` equals the authentication's name. */
  predicate IsOwner(b: Bindings, auth: Authentication)
  {
    "login" in b && b["login"] == NameOf(auth)
  }

  /** The decision an entry's access rule makes, given the variables its matcher bound. */
  predicate Grants(access: Access, b: Bindings, auth: Authentication)
    // an anonymous request passes only an open entry or an ownership test on the anonymous name
    ensures Grants(access, b, auth) && auth.Anonymous? ==>
      access.PermitAll? || ((access.Owner? || access.OwnerOrRole?) && "login" in b && b["login"] == AnonymousName)
    // an authenticated owner passes every ownership test
    ensures access.Owner? || access.OwnerOrRole? || access.AuthenticatedOwner? || access.AuthenticatedOwnerOrRole? ==>
      (auth.Principal? && "login" in b && b["login"] == auth.name ==> Grants(access, b, auth))
  {
    match access
    case PermitAll => true
    case HasRoleAccess(role) => HasRole(auth, role)
    case Authenticated => auth.Principal?
    case Owner => IsOwner(b, auth)
    case OwnerOrRole(role) => IsOwner(b, auth) || HasRole(auth, role)
    case AuthenticatedOwner => auth.Principal? && IsOwner(b, auth)
    case AuthenticatedOwnerOrRole(role) => auth.Principal? && (IsOwner(b, auth) || HasRole(auth, role))
  }

  /** The variables an entry binds when it matches the request, or `None` when it does not. */
  function RuleMatch(r: Rule, verb: HttpMethod, path: seq<string>): Option<Bindings>
  {
    if r.verb.Some? && r.verb.value != verb then None else FirstMatch(r.patterns, path)
  }

  /** The first entry that matches decides; a request no entry matches is refused. */
  predicate Allowed(rules: seq<Rule>, verb: HttpMethod, path: seq<string>, auth: Authentication)
    decreases |rules|
  {
    if rules == [] then false
    else match RuleMatch(rules[0], verb, path)
      case Some(b) => Grants(rules[0].access, b, auth)
      case None => Allowed(rules[1..], verb, path, auth)
  }

  /** An allowed request has a first matching entry, and that entry's access rule grants it. */
  lemma {:induction false} AllowedHasDecidingEntry(rules: seq<Rule>, verb: HttpMethod, path: seq<string>, auth: Authentication)
    requires Allowed(rules, verb, path, auth)
    ensures exists k :: 0 <= k < |rules| && RuleMatch(rules[k], verb, path).Some? &&
                        (forall j :: 0 <= j < k ==> RuleMatch(rules[j], verb, path).None?) &&
                        Grants(rules[k].access, RuleMatch(rules[k], verb, path).value, auth)
    decreases |rules|
  {
    if RuleMatch(rules[0], verb, path).None? {
      var tail := rules[1..];
      AllowedHasDecidingEntry(tail, verb, path, auth);
      var k :| 0 <= k < |tail| && RuleMatch(tail[k], verb, path).Some? &&
        (forall j :: 0 <= j < k ==> RuleMatch(tail[j], verb, path).None?) &&
        Grants(tail[k].access, RuleMatch(tail[k], verb, path).value, auth);
      assert rules[k + 1] == tail[k];
      assert forall j :: 1 <= j < k + 1 ==> rules[j] == tail[j - 1];
    } else {
      assert RuleMatch(rules[0], verb, path).Some?;
    }
  }

  /** When entry `k` is the first that matches, its access rule alone decides. */
  lemma {:induction false} FirstMatchDecides(rules: seq<Rule>, k: nat, verb: HttpMethod, path: seq<string>, auth: Authentication)
    requires k < |rules| && RuleMatch(rules[k], verb, path).Some?
    requires forall j :: 0 <= j < k ==> RuleMatch(rules[j], verb, path).None?
    ensures Allowed(rules, verb, path, auth) == Grants(rules[k].access, RuleMatch(rules[k], verb, path).value, auth)
    decreases k
  {
    if k > 0 {
      assert forall j :: 0 <= j < k - 1 ==> rules[1..][j] == rules[j + 1];
      FirstMatchDecides(rules[1..], k - 1, verb, path, auth);
    }
  }

  /** A request that no entry matches is refused. */
  lemma {:induction false} NoMatchRefuses(rules: seq<Rule>, verb: HttpMethod, path: seq<string>, auth: Authentication)
    requires forall j :: 0 <= j < |rules| ==> RuleMatch(rules[j], verb, path).None?
    ensures !Allowed(rules, verb, path, auth)
    decreases |rules|
  {
    if rules != [] {
      assert forall j :: 0 <= j < |rules| - 1 ==> rules[1..][j] == rules[j + 1];
      NoMatchRefuses(rules[1..], verb, path, auth);
    }
  }

  const SwaggerPatterns := [
    Pattern([Literal("swagger-ui.html")], false),
    Pattern([Literal("swagger-ui")], true),
    Pattern([Literal("v3"), Literal("api-docs")], true)]

  const OpenPatterns := [
    Pattern([Literal("account"), Literal("register")], false),
    Pattern([Literal("forum"), Literal("posts")], true)]

  const RolePattern := Pattern([Literal("account"), Literal("user"), Variable("login"), Literal("role"), Variable("role")], false)

  const UserPattern := Pattern([Literal("account"), Literal("user"), Variable("login")], false)

  const AnyRequest := Pattern([], true)

  /** The entries of `authorizeHttpRequests`, in the order they are declared. */
  function Policy(): seq<Rule>
  {
    [ Rule(None, SwaggerPatterns, PermitAll),
      Rule(None, OpenPatterns, PermitAll),
      Rule(None, [RolePattern], HasRoleAccess(Administrator)),
      Rule(Some(Put), [UserPattern], Owner),
      Rule(Some(Delete), [UserPattern], OwnerOrRole(Administrator)),
      Rule(None, [AnyRequest], Authenticated) ]
  }

  /**
   * The policy with the two ownership expressions also demanding an
   * authenticated principal, so that the anonymous token's name cannot pass
   * for an owner.
   */
  function IntendedPolicy(): seq<Rule>
  {
    [ Rule(None, SwaggerPatterns, PermitAll),
      Rule(None, OpenPatterns, PermitAll),
      Rule(None, [RolePattern], HasRoleAccess(Administrator)),
      Rule(Some(Put), [UserPattern], AuthenticatedOwner),
      Rule(Some(Delete), [UserPattern], AuthenticatedOwnerOrRole(Administrator)),
      Rule(None, [AnyRequest], Authenticated) ]
  }

  /** The paths open to everyone: the API documentation, registration and the post listings. */
  predicate IsOpenPath(path: seq<string>)
  {
    || path == ["swagger-ui.html"]
    || (|path| >= 1 && path[0] == "swagger-ui")
    || (|path| >= 2 && path[0] == "v3" && path[1] == "api-docs")
    || path == ["account", "register"]
    || (|path| >= 2 && path[0] == "forum" && path[1] == "posts")
  }

  /** /account/user/{login}/role/{role} */
  predicate IsRolePath(path: seq<string>)
  {
    |path| == 5 && path[0] == "account" && path[1] == "user" && path[3] == "role"
  }

  /** /account/user/{login} */
  predicate IsUserPath(path: seq<string>)
  {
    |path| == 3 && path[0] == "account" && path[1] == "user"
  }

  /** The access decision read off the shape of the request, case by case. */
  predicate Expected(verb: HttpMethod, path: seq<string>, auth: Authentication)
  {
    if IsOpenPath(path) then true
    else if IsRolePath(path) then HasRole(auth, Administrator)
    else if IsUserPath(path) && verb == Put then path[2] == NameOf(auth)
    else if IsUserPath(path) && verb == Delete then path[2] == NameOf(auth) || HasRole(auth, Administrator)
    else auth.Principal?
  }

  /** The same reading for the intended policy: ownership needs an authenticated principal. */
  predicate IntendedExpected(verb: HttpMethod, path: seq<string>, auth: Authentication)
  {
    if IsOpenPath(path) then true
    else if IsRolePath(path) then HasRole(auth, Administrator)
    else if IsUserPath(path) && verb == Put then auth.Principal? && path[2] == auth.name
    else if IsUserPath(path) && verb == Delete then
      auth.Principal? && (path[2] == auth.name || Administrator in auth.roles)
    else auth.Principal?
  }

  lemma SwaggerMatch(path: seq<string>)
    ensures FirstMatch(SwaggerPatterns, path).Some? <==>
      path == ["swagger-ui.html"] || (|path| >= 1 && path[0] == "swagger-ui")
      || (|path| >= 2 && path[0] == "v3" && path[1] == "api-docs")
  {
    var segs0 := SwaggerPatterns[0].segments;
    var segs2 := SwaggerPatterns[2].segments;
    if path == ["swagger-ui.html"] {
      assert Fits(segs0, false, path);
    }
    if |path| >= 2 && path[0] == "v3" && path[1] == "api-docs" {
      assert Fits(segs2, true, path);
    }
    if Match(SwaggerPatterns[0], path).Some? {
      assert path[0] == segs0[0].text;
    }
    if Match(SwaggerPatterns[2], path).Some? {
      assert path[0] == segs2[0].text && path[1] == segs2[1].text;
    }
  }

  lemma OpenMatch(path: seq<string>)
    ensures FirstMatch(OpenPatterns, path).Some? <==>
      path == ["account", "register"] || (|path| >= 2 && path[0] == "forum" && path[1] == "posts")
  {
    var segs0 := OpenPatterns[0].segments;
    var segs1 := OpenPatterns[1].segments;
    if path == ["account", "register"] {
      assert Fits(segs0, false, path);
    }
    if |path| >= 2 && path[0] == "forum" && path[1] == "posts" {
      assert Fits(segs1, true, path);
    }
    if Match(OpenPatterns[0], path).Some? {
      assert path[0] == segs0[0].text && path[1] == segs0[1].text;
    }
    if Match(OpenPatterns[1], path).Some? {
      assert path[0] == segs1[0].text && path[1] == segs1[1].text;
    }
  }

  lemma RolePathMatch(path: seq<string>)
    ensures FirstMatch([RolePattern], path).Some? <==> IsRolePath(path)
  {
    var segs := RolePattern.segments;
    if IsRolePath(path) {
      assert Fits(segs, false, path);
    }
    if Match(RolePattern, path).Some? {
      assert path[0] == segs[0].text && path[1] == segs[1].text && path[3] == segs[3].text;
    }
  }

  lemma UserPathMatch(path: seq<string>)
    ensures FirstMatch([UserPattern], path).Some? <==> IsUserPath(path)
    ensures IsUserPath(path) ==> FirstMatch([UserPattern], path) == Some(map["login" := path[2]])
  {
    var segs := UserPattern.segments;
    if IsUserPath(path) {
      assert Fits(segs, false, path);
      assert DistinctVariables(segs);
      var b := Match(UserPattern, path).value;
      assert b.Keys == VariablesOf(segs);
      assert VariablesOf(segs) == {"login"} by {
        VariablesOfCons(segs);
        VariablesOfCons(segs[1..]);
        VariablesOfCons(segs[2..]);
        assert segs[3..] == [];
      }
      assert b["login"] == path[2] by {
        assert segs[2].Variable? && segs[2].name == "login";
      }
      assert b == map["login" := path[2]];
    }
    if Match(UserPattern, path).Some? {
      assert path[0] == segs[0].text && path[1] == segs[1].text;
    }
  }

  lemma AnyRequestMatches(path: seq<string>)
    ensures FirstMatch([AnyRequest], path).Some?
  {
    assert Fits(AnyRequest.segments, true, path);
  }

  /**
   * The declared policy has six entries; its last one matches every request
   * and demands authentication, so no request falls off the end.
   */
  lemma PolicyEndsWithCatchAll(verb: HttpMethod, path: seq<string>)
    ensures |Policy()| == 6 && Policy()[5].access == Authenticated
    ensures RuleMatch(Policy()[5], verb, path).Some?
  {
    AnyRequestMatches(path);
  }

  /**
   * The correction keeps every entry's method and patterns and changes only
   * the two ownership rules, each of which also demands authentication.
   */
  lemma IntendedPolicyDiffersInOwnership()
    ensures |IntendedPolicy()| == |Policy()|
    ensures forall k :: 0 <= k < |Policy()| && k != 3 && k != 4 ==> IntendedPolicy()[k] == Policy()[k]
    ensures forall k :: 0 <= k < |Policy()| ==>
      IntendedPolicy()[k].verb == Policy()[k].verb && IntendedPolicy()[k].patterns == Policy()[k].patterns
    ensures Policy()[3].access == Owner && IntendedPolicy()[3].access == AuthenticatedOwner
    ensures Policy()[4].access == OwnerOrRole(Administrator)
    ensures IntendedPolicy()[4].access == AuthenticatedOwnerOrRole(Administrator)
  {
  }

  /**
   * Which entries of a six-entry policy match a request, and what they bind,
   * when its entries are laid out like the declared ones.
   */
  ghost predicate MatchesLikeDeclared(rules: seq<Rule>, verb: HttpMethod, path: seq<string>)
  {
    && |rules| == 6
    && (RuleMatch(rules[0], verb, path).Some? || RuleMatch(rules[1], verb, path).Some? <==> IsOpenPath(path))
    && (RuleMatch(rules[2], verb, path).Some? <==> IsRolePath(path))
    && RuleMatch(rules[3], verb, path) ==
         (if IsUserPath(path) && verb == Put then Some(map["login" := path[2]]) else None)
    && RuleMatch(rules[4], verb, path) ==
         (if IsUserPath(path) && verb == Delete then Some(map["login" := path[2]]) else None)
    && RuleMatch(rules[5], verb, path).Some?
  }

  /** The entries of a policy laid out like the declared one match as `MatchesLikeDeclared` says, whatever their access rules. */
  lemma EntriesMatch(rules: seq<Rule>, verb: HttpMethod, path: seq<string>, owner: Access, ownerOrAdmin: Access)
    requires rules == [ Rule(None, SwaggerPatterns, PermitAll),
                        Rule(None, OpenPatterns, PermitAll),
                        Rule(None, [RolePattern], HasRoleAccess(Administrator)),
                        Rule(Some(Put), [UserPattern], owner),
                        Rule(Some(Delete), [UserPattern], ownerOrAdmin),
                        Rule(None, [AnyRequest], Authenticated) ]
    ensures |rules| == 6
    ensures RuleMatch(rules[0], verb, path).Some? || RuleMatch(rules[1], verb, path).Some? <==> IsOpenPath(path)
    ensures RuleMatch(rules[2], verb, path).Some? <==> IsRolePath(path)
    ensures RuleMatch(rules[3], verb, path) ==
      if IsUserPath(path) && verb == Put then Some(map["login" := path[2]]) else None
    ensures RuleMatch(rules[4], verb, path) ==
      if IsUserPath(path) && verb == Delete then Some(map["login" := path[2]]) else None
    ensures RuleMatch(rules[5], verb, path).Some?
  {
    OpenEntriesMatch(rules[0], rules[1], verb, path);
    RoleEntryMatch(rules[2], verb, path);
    UserEntryMatch(rules[3], Put, verb, path);
    UserEntryMatch(rules[4], Delete, verb, path);
    AnyRequestMatches(path);
  }

  lemma OpenEntriesMatch(r0: Rule, r1: Rule, verb: HttpMethod, path: seq<string>)
    requires r0.verb == None && r0.patterns == SwaggerPatterns
    requires r1.verb == None && r1.patterns == OpenPatterns
    ensures RuleMatch(r0, verb, path).Some? || RuleMatch(r1, verb, path).Some? <==> IsOpenPath(path)
  {
    SwaggerMatch(path);
    OpenMatch(path);
  }

  lemma RoleEntryMatch(r: Rule, verb: HttpMethod, path: seq<string>)
    requires r.verb == None && r.patterns == [RolePattern]
    ensures RuleMatch(r, verb, path).Some? <==> IsRolePath(path)
  {
    RolePathMatch(path);
  }

  lemma UserEntryMatch(r: Rule, only: HttpMethod, verb: HttpMethod, path: seq<string>)
    requires r.verb == Some(only) && r.patterns == [UserPattern]
    ensures RuleMatch(r, verb, path) == if IsUserPath(path) && verb == only then Some(map["login" := path[2]]) else None
  {
    UserPathMatch(path);
  }

  /** A policy laid out like the declared one decides by the first of its entries that matches. */
  lemma ShapedPolicyDecides(rules: seq<Rule>, verb: HttpMethod, path: seq<string>, auth: Authentication, owner: Access, ownerOrAdmin: Access)
    requires MatchesLikeDeclared(rules, verb, path)
    requires rules[0].access == PermitAll && rules[1].access == PermitAll
    requires rules[2].access == HasRoleAccess(Administrator)
    requires rules[3].access == owner && rules[4].access == ownerOrAdmin
    requires rules[5].access == Authenticated
    ensures Allowed(rules, verb, path, auth) ==
      if IsOpenPath(path) then true
      else if IsRolePath(path) then HasRole(auth, Administrator)
      else if IsUserPath(path) && verb == Put then Grants(owner, map["login" := path[2]], auth)
      else if IsUserPath(path) && verb == Delete then Grants(ownerOrAdmin, map["login" := path[2]], auth)
      else auth.Principal?
  {
    var k :=
      if RuleMatch(rules[0], verb, path).Some? then 0
      else if RuleMatch(rules[1], verb, path).Some? then 1
      else if IsRolePath(path) then 2
      else if IsUserPath(path) && verb == Put then 3
      else if IsUserPath(path) && verb == Delete then 4
      else 5;
    forall j | 0 <= j < k ensures RuleMatch(rules[j], verb, path).None? {
      if j == 0 {
      } else if j == 1 {
      } else if j == 2 {
      } else if j == 3 {
      } else {
        assert j == 4;
      }
    }
    FirstMatchDecides(rules, k, verb, path, auth);
  }

  /** With the declared access rules, the decision is the case-by-case reading `Expected`. */
  lemma DeclaredAccessDecides(rules: seq<Rule>, verb: HttpMethod, path: seq<string>, auth: Authentication)
    requires MatchesLikeDeclared(rules, verb, path)
    requires rules[0].access == PermitAll && rules[1].access == PermitAll
    requires rules[2].access == HasRoleAccess(Administrator)
    requires rules[3].access == Owner && rules[4].access == OwnerOrRole(Administrator)
    requires rules[5].access == Authenticated
    ensures Allowed(rules, verb, path, auth) == Expected(verb, path, auth)
  {
    ShapedPolicyDecides(rules, verb, path, auth, Owner, OwnerOrRole(Administrator));
    if IsUserPath(path) {
      var b := map["login" := path[2]];
      assert IsOwner(b, auth) <==> path[2] == NameOf(auth);
    }
  }

  /** With the intended access rules, the decision is the case-by-case reading `IntendedExpected`. */
  lemma IntendedAccessDecides(rules: seq<Rule>, verb: HttpMethod, path: seq<string>, auth: Authentication)
    requires MatchesLikeDeclared(rules, verb, path)
    requires rules[0].access == PermitAll && rules[1].access == PermitAll
    requires rules[2].access == HasRoleAccess(Administrator)
    requires rules[3].access == AuthenticatedOwner
    requires rules[4].access == AuthenticatedOwnerOrRole(Administrator)
    requires rules[5].access == Authenticated
    ensures Allowed(rules, verb, path, auth) == IntendedExpected(verb, path, auth)
  {
    ShapedPolicyDecides(rules, verb, path, auth, AuthenticatedOwner, AuthenticatedOwnerOrRole(Administrator));
    if IsUserPath(path) {
      var b := map["login" := path[2]];
      assert IsOwner(b, auth) <==> path[2] == NameOf(auth);
    }
  }

  /** The declared policy decides exactly as the case-by-case reading says. */
  lemma PolicyDecides(verb: HttpMethod, path: seq<string>, auth: Authentication)
    ensures Allowed(Policy(), verb, path, auth) == Expected(verb, path, auth)
  {
    var rules := Policy();
    EntriesMatch(rules, verb, path, Owner, OwnerOrRole(Administrator));
    assert MatchesLikeDeclared(rules, verb, path);
    DeclaredAccessDecides(rules, verb, path, auth);
  }

  /** The intended policy decides exactly as its case-by-case reading says. */
  lemma IntendedPolicyDecides(verb: HttpMethod, path: seq<string>, auth: Authentication)
    ensures Allowed(IntendedPolicy(), verb, path, auth) == IntendedExpected(verb, path, auth)
  {
    var rules := IntendedPolicy();
    EntriesMatch(rules, verb, path, AuthenticatedOwner, AuthenticatedOwnerOrRole(Administrator));
    assert MatchesLikeDeclared(rules, verb, path);
    IntendedAccessDecides(rules, verb, path, auth);
  }

  /** The documentation, registration and the post listings are open to anyone, by any method. */
  lemma OpenPathsArePermitted(verb: HttpMethod, path: seq<string>, auth: Authentication)
    requires IsOpenPath(path)
    ensures Allowed(Policy(), verb, path, auth)
    ensures Allowed(IntendedPolicy(), verb, path, auth)
  {
    PolicyDecides(verb, path, auth);
    IntendedPolicyDecides(verb, path, auth);
  }

  /**
   * Any method on a role path is allowed exactly to administrators, whoever
   * the path's login is, the caller included.
   */
  lemma RoleChangeNeedsAdministrator(verb: HttpMethod, login: string, role: string, auth: Authentication)
    ensures Allowed(Policy(), verb, ["account", "user", login, "role", role], auth)
        <==> HasRole(auth, Administrator)
  {
    PolicyDecides(verb, ["account", "user", login, "role", role], auth);
  }

  /** An edit of /account/user/{login} is allowed iff the caller's name is that login; administrators get no exemption. */
  lemma EditIsOwnerOnly(login: string, auth: Authentication)
    ensures Allowed(Policy(), Put, ["account", "user", login], auth) <==> NameOf(auth) == login
  {
    PolicyDecides(Put, ["account", "user", login], auth);
  }

  /** A removal of /account/user/{login} is allowed iff the caller's name is that login or the caller is an administrator. */
  lemma RemovalIsOwnerOrAdministrator(login: string, auth: Authentication)
    ensures Allowed(Policy(), Delete, ["account", "user", login], auth)
        <==> NameOf(auth) == login || HasRole(auth, Administrator)
  {
    PolicyDecides(Delete, ["account", "user", login], auth);
  }

  /**
   * Every request that no earlier entry matches needs only authentication:
   * reading an account, changing a password, a single post.
   */
  lemma OtherRequestsNeedAuthentication(verb: HttpMethod, path: seq<string>, auth: Authentication)
    requires !IsOpenPath(path) && !IsRolePath(path)
    requires !(IsUserPath(path) && (verb == Put || verb == Delete))
    ensures Allowed(Policy(), verb, path, auth) <==> auth.Principal?
    ensures Allowed(IntendedPolicy(), verb, path, auth) <==> auth.Principal?
  {
    PolicyDecides(verb, path, auth);
    IntendedPolicyDecides(verb, path, auth);
  }

  /** Reading an account needs authentication only. */
  lemma ReadingNeedsAuthentication(login: string, auth: Authentication)
    ensures Allowed(Policy(), Get, ["account", "user", login], auth) <==> auth.Principal?
  {
    var path := ["account", "user", login];
    assert !IsOpenPath(path) && !IsRolePath(path) && IsUserPath(path);
    PolicyDecides(Get, path, auth);
  }

  /** Changing one's password needs authentication only. */
  lemma PasswordChangeNeedsAuthentication(auth: Authentication)
    ensures Allowed(Policy(), Put, ["account", "password"], auth) <==> auth.Principal?
  {
    var path := ["account", "password"];
    assert path[1] != "register" && path[1] != "user";
    assert !IsOpenPath(path) && !IsRolePath(path) && !IsUserPath(path);
    PolicyDecides(Put, path, auth);
  }

  /** Any method on a single post needs authentication only. */
  lemma SinglePostNeedsAuthentication(id: string, verb: HttpMethod, auth: Authentication)
    ensures Allowed(Policy(), verb, ["forum", "post", id], auth) <==> auth.Principal?
  {
    var path := ["forum", "post", id];
    assert path[1] != "posts";
    assert !IsOpenPath(path) && !IsRolePath(path) && !IsUserPath(path);
    PolicyDecides(verb, path, auth);
  }

  /**
   * As declared, the ownership expressions compare the path login with the
   * anonymous token's name, so an anonymous request may edit and remove the
   * account whose login is that name.
   */
  lemma AnonymousOwnsAnonymousUser()
    ensures !IsOpenPath(["account", "user", AnonymousName])
    ensures Allowed(Policy(), Put, ["account", "user", AnonymousName], Anonymous)
    ensures Allowed(Policy(), Delete, ["account", "user", AnonymousName], Anonymous)
  {
    PolicyDecides(Put, ["account", "user", AnonymousName], Anonymous);
    PolicyDecides(Delete, ["account", "user", AnonymousName], Anonymous);
  }

  /** Under the intended policy an anonymous request gets through exactly on the open paths. */
  lemma AnonymousOnlyOnOpenPaths(verb: HttpMethod, path: seq<string>)
    ensures Allowed(IntendedPolicy(), verb, path, Anonymous) <==> IsOpenPath(path)
  {
    IntendedPolicyDecides(verb, path, Anonymous);
  }

  /** The correction changes nothing for authenticated callers. */
  lemma IntendedAgreesForPrincipals(verb: HttpMethod, path: seq<string>, name: string, roles: set<Role>)
    ensures Allowed(IntendedPolicy(), verb, path, Principal(name, roles))
         == Allowed(Policy(), verb, path, Principal(name, roles))
  {
    var auth := Principal(name, roles);
    PolicyDecides(verb, path, auth);
    IntendedPolicyDecides(verb, path, auth);
    assert NameOf(auth) == name;
    assert HasRole(auth, Administrator) <==> Administrator in roles;
  }
}
