/** Access rules of the application: role naming, the first-match exchange
    authorization table, the seeded user records and the user-details lookup
    (SecurityConfig.java). */
module Security {
  import opened Wrappers

  const USER: string := "USER"
  const INVENTORY: string := "INVENTORY"

  /** Spring Security stores a role as an authority carrying this prefix. */
  const RolePrefix: string := "ROLE_"

  // ---------------------------------------------------------------------------
  // Roles
  // ---------------------------------------------------------------------------

  /** `role`: the authority string that stands for role `auth`. */
  function Role(auth: string): (r: string)
    ensures IsRoleAuthority(r) && RoleName(r) == auth
  {
    RolePrefix + auth
  }

  /** An authority that names a role. */
  predicate IsRoleAuthority(authority: string) {
    |RolePrefix| <= |authority| && authority[..|RolePrefix|] == RolePrefix
  }

  /** The role an authority names: the inverse of `Role`. */
  function RoleName(authority: string): string
    requires IsRoleAuthority(authority)
  {
    authority[|RolePrefix|..]
  }

  /** Distinct roles give distinct authorities. */
  lemma RoleInjective(a: string, b: string)
    ensures Role(a) == Role(b) <==> a == b
  {
    if Role(a) == Role(b) {
      assert a == RoleName(Role(a));
    }
  }

  /** Every role authority is `Role` of the role it names. */
  lemma {:induction false} RoleOfRoleName(authority: string)
    requires IsRoleAuthority(authority)
    ensures Role(RoleName(authority)) == authority
  {
    assert authority == authority[..|RolePrefix|] + authority[|RolePrefix|..];
  }

  /** `hasRole(role)`: the role's authority is among the granted ones. */
  predicate HasRole(authorities: set<string>, role: string) {
    Role(role) in authorities
  }

  /** The inventory role is the authority literally spelled ROLE_INVENTORY,
      and the plain user role does not grant it. */
  lemma InventoryAuthority()
    ensures Role(INVENTORY) == "ROLE_INVENTORY"
    ensures Role(USER) == "ROLE_USER"
    ensures Role(USER) != Role(INVENTORY)
  {
  }

  // ---------------------------------------------------------------------------
  // Exchange authorization (myCustomSecurityPolicy)
  // ---------------------------------------------------------------------------

  datatype HttpMethod = GET | HEAD | POST | PUT | PATCH | DELETE | OPTIONS | TRACE

  /** An authenticated caller: its name and granted authorities. */
  datatype Principal = Principal(name: string, authorities: set<string>)

  /** One request as the authorization filter sees it; `principal` is None
      when no credentials were verified. `path` is the path as the pattern
      matcher compares it: each segment percent-decoded and stripped of its
      `;` parameters. */
  datatype Exchange = Exchange(verb: HttpMethod, path: string, principal: Option<Principal>)

  /** The two path patterns the table uses, plus the catch-all. */
  datatype PathPattern =
    | Literal(path: string)   // "/item": the path itself, or with a trailing '/'
    | Subtree(base: string)   // "/item/**": the base and everything below it
    | AnyPath                 // anyExchange()

  datatype Access = Authenticated | RoleRequired(role: string)

  /** `verb` None matches every HTTP method. */
  datatype Rule = Rule(verb: Option<HttpMethod>, pattern: PathPattern, access: Access)

  /** Outcome of authorization: let through, 401, or 403. */
  datatype Decision = Allow | Unauthorized | Forbidden

  predicate IsPrefix(p: string, s: string) {
    |p| <= |s| && s[..|p|] == p
  }

  /** A literal matches only its own path, give or take a trailing '/'; a
      subtree pattern matches only paths starting with its base; the
      catch-all matches every path. */
  predicate PathMatches(pattern: PathPattern, path: string)
    ensures pattern.Literal? && PathMatches(pattern, path) ==>
      IsPrefix(pattern.path, path) && |path| <= |pattern.path| + 1
    ensures pattern.Literal? && PathMatches(pattern, path) && path != pattern.path ==>
      path[|path| - 1] == '/'
    ensures pattern.Subtree? && PathMatches(pattern, path) ==> IsPrefix(pattern.base, path)
    ensures pattern.Subtree? && PathMatches(pattern, path) && path != pattern.base ==>
      IsPrefix(pattern.base + "/", path)
    ensures pattern.AnyPath? ==> PathMatches(pattern, path)
  {
    match pattern
    case Literal(l) => path == l || path == l + "/"
    case Subtree(b) => path == b || IsPrefix(b + "/", path)
    case AnyPath => true
  }

  /** What the patterns accept: a literal itself and with a trailing '/'; a
      subtree its base and every path below it. */
  lemma PathPatternsAccept(l: string, b: string, rest: string)
    ensures PathMatches(Literal(l), l) && PathMatches(Literal(l), l + "/")
    ensures PathMatches(Subtree(b), b) && PathMatches(Subtree(b), b + "/" + rest)
  {
    assert (b + "/" + rest)[..|b + "/"|] == b + "/";
  }

  predicate RuleMatches(rule: Rule, ex: Exchange) {
    (rule.verb.None? || rule.verb.value == ex.verb) && PathMatches(rule.pattern, ex.path)
  }

  /** The table, in declaration order. */
  const SecurityPolicy: seq<Rule> := [
    Rule(Some(POST), Literal("/item"), RoleRequired(INVENTORY)),
    Rule(Some(DELETE), Subtree("/item"), RoleRequired(INVENTORY)),
    Rule(None, AnyPath, Authenticated)
  ]

  /** Index of the first rule at or after `start` that matches `ex`. */
  function FirstMatchFrom(rules: seq<Rule>, ex: Exchange, start: nat): (r: Option<nat>)
    requires start <= |rules|
    ensures r.Some? ==> start <= r.value < |rules| && RuleMatches(rules[r.value], ex)
    ensures r.Some? ==> forall j :: start <= j < r.value ==> !RuleMatches(rules[j], ex)
    ensures r.None? ==> forall j :: start <= j < |rules| ==> !RuleMatches(rules[j], ex)
    decreases |rules| - start
  {
    if start == |rules| then None
    else if RuleMatches(rules[start], ex) then Some(start)
    else FirstMatchFrom(rules, ex, start + 1)
  }

  /** What one rule's access requirement decides for a caller. */
  function Grant(access: Access, principal: Option<Principal>): (d: Decision)
    ensures principal.None? <==> d == Unauthorized
    ensures d == Forbidden <==> principal.Some? && access.RoleRequired? && !HasRole(principal.value.authorities, access.role)
  {
    match principal
    case None => Unauthorized
    case Some(p) =>
      match access
      case Authenticated => Allow
      case RoleRequired(role) => if HasRole(p.authorities, role) then Allow else Forbidden
  }

  /** First-match authorization: the first matching rule decides; when none
      matches the exchange is denied. */
  function Decide(rules: seq<Rule>, ex: Exchange): (d: Decision)
    ensures ex.principal.None? ==> d == Unauthorized
  {
    match FirstMatchFrom(rules, ex, 0)
    case Some(i) => Grant(rules[i].access, ex.principal)
    case None => if ex.principal.None? then Unauthorized else Forbidden
  }

  /** The exchanges the table reserves to the inventory role. */
  predicate NeedsInventory(ex: Exchange) {
    || (ex.verb == POST && PathMatches(Literal("/item"), ex.path))
    || (ex.verb == DELETE && PathMatches(Subtree("/item"), ex.path))
  }

  /** The table in closed form: unauthenticated is 401; an inventory-only
      exchange without the role is 403; everything else is allowed. */
  lemma {:induction false} PolicyClosedForm(ex: Exchange)
    ensures Decide(SecurityPolicy, ex) ==
      if ex.principal.None? then Unauthorized
      else if NeedsInventory(ex) && !HasRole(ex.principal.value.authorities, INVENTORY) then Forbidden
      else Allow
  {
    var r := FirstMatchFrom(SecurityPolicy, ex, 0);
    assert RuleMatches(SecurityPolicy[2], ex);
    assert r.Some?;
    if ex.verb == POST && PathMatches(Literal("/item"), ex.path) {
      assert RuleMatches(SecurityPolicy[0], ex);
      assert r.value == 0;
    } else if ex.verb == DELETE && PathMatches(Subtree("/item"), ex.path) {
      assert !RuleMatches(SecurityPolicy[0], ex) && RuleMatches(SecurityPolicy[1], ex);
      assert r.value == 1;
    } else {
      assert !RuleMatches(SecurityPolicy[0], ex) && !RuleMatches(SecurityPolicy[1], ex);
      assert r.value == 2;
    }
  }

  /** POST /item: 403 without the inventory role, allowed with it. */
  lemma PostItemNeedsInventory(p: Principal)
    ensures Decide(SecurityPolicy, Exchange(POST, "/item", Some(p))) ==
      if Role(INVENTORY) in p.authorities then Allow else Forbidden
  {
    PolicyClosedForm(Exchange(POST, "/item", Some(p)));
  }

  /** DELETE of any path below /item/: 403 without the inventory role. */
  lemma DeleteUnderItemNeedsInventory(p: Principal, rest: string)
    ensures Decide(SecurityPolicy, Exchange(DELETE, "/item/" + rest, Some(p))) ==
      if Role(INVENTORY) in p.authorities then Allow else Forbidden
  {
    var path := "/item/" + rest;
    assert path[..|"/item/"|] == "/item/";
    PolicyClosedForm(Exchange(DELETE, path, Some(p)));
  }

  /** POST /item/ (trailing separator) and DELETE /item itself are also
      reserved to the inventory role. */
  lemma ItemPatternEdgesNeedInventory(p: Principal)
    ensures Decide(SecurityPolicy, Exchange(POST, "/item/", Some(p))) ==
      if Role(INVENTORY) in p.authorities then Allow else Forbidden
    ensures Decide(SecurityPolicy, Exchange(DELETE, "/item", Some(p))) ==
      if Role(INVENTORY) in p.authorities then Allow else Forbidden
  {
    PolicyClosedForm(Exchange(POST, "/item/", Some(p)));
    PolicyClosedForm(Exchange(DELETE, "/item", Some(p)));
  }

  /** The table is method-specific and first-match: GET /item and POST /item/x
      fall through to the catch-all, which only asks for authentication. */
  lemma FallThroughToAuthenticated(p: Option<Principal>)
    ensures Decide(SecurityPolicy, Exchange(GET, "/item", p)) == if p.None? then Unauthorized else Allow
    ensures Decide(SecurityPolicy, Exchange(POST, "/item/x", p)) == if p.None? then Unauthorized else Allow
  {
    PolicyClosedForm(Exchange(GET, "/item", p));
    PolicyClosedForm(Exchange(POST, "/item/x", p));
  }

  /** Any exchange outside the two inventory rules needs authentication only:
      roles make no difference. */
  lemma OtherExchangesNeedOnlyAuthentication(ex: Exchange)
    requires !NeedsInventory(ex)
    ensures Decide(SecurityPolicy, ex) == if ex.principal.None? then Unauthorized else Allow
  {
    PolicyClosedForm(ex);
  }

  // ---------------------------------------------------------------------------
  // Users
  // ---------------------------------------------------------------------------

  /** A stored user record: name, password hash and role authorities. */
  datatype User = User(name: string, password: string, roles: seq<string>)

  /** `userloader`: the two records saved at start-up, sharing one password hash. */
  function SeedUsers(passwordHash: string): (users: seq<User>)
    ensures forall u :: u in users ==> u.password == passwordHash && Role(USER) in u.roles
    ensures forall u :: u in users ==> (Role(INVENTORY) in u.roles <==> u.name == "manager")
  {
    [ User("greg", passwordHash, [Role(USER)]),
      User("manager", passwordHash, [Role(USER), Role(INVENTORY)]) ]
  }

  /** Seeding yields exactly greg (user role only) and manager (user and
      inventory roles), with the same password. */
  lemma SeedUsersShape(passwordHash: string)
    ensures |SeedUsers(passwordHash)| == 2
    ensures SeedUsers(passwordHash)[0].name == "greg" && SeedUsers(passwordHash)[1].name == "manager"
    ensures forall u :: u in SeedUsers(passwordHash) ==> u.password == passwordHash && Role(USER) in u.roles
    ensures Role(INVENTORY) !in SeedUsers(passwordHash)[0].roles
    ensures Role(INVENTORY) in SeedUsers(passwordHash)[1].roles
  {
  }

  /** `findByName` on the user store: the first record with that name. */
  function FindByName(users: seq<User>, name: string): (r: Option<User>)
    ensures r.Some? ==> r.value in users && r.value.name == name
    ensures r.None? <==> forall u :: u in users ==> u.name != name
  {
    if users == [] then None
    else if users[0].name == name then Some(users[0])
    else FindByName(users[1..], name)
  }

  /** What Spring Security sees of a user: name, password, authorities. */
  datatype UserDetails = UserDetails(username: string, password: string, authorities: set<string>)

  /** `userDetailsService`: look the name up and map the record's roles to
      authorities; nothing when the name is unknown. */
  function LoadUser(users: seq<User>, username: string): (r: Option<UserDetails>)
    ensures r.None? <==> forall u :: u in users ==> u.name != username
    ensures r.Some? ==>
      && r.value.username == username
      && exists u :: u in users && u.name == username && u.password == r.value.password &&
           r.value.authorities == set a | a in u.roles
  {
    match FindByName(users, username)
    case None => None
    case Some(u) => Some(UserDetails(u.name, u.password, set a | a in u.roles))
  }

  /** Against the seeded store, manager is granted the inventory role, greg is
      not, and any other name is unknown. */
  lemma SeededLogins(passwordHash: string, other: string)
    requires other != "greg" && other != "manager"
    ensures LoadUser(SeedUsers(passwordHash), "manager") ==
      Some(UserDetails("manager", passwordHash, {Role(USER), Role(INVENTORY)}))
    ensures LoadUser(SeedUsers(passwordHash), "greg") ==
      Some(UserDetails("greg", passwordHash, {Role(USER)}))
    ensures !HasRole(LoadUser(SeedUsers(passwordHash), "greg").value.authorities, INVENTORY)
    ensures LoadUser(SeedUsers(passwordHash), other).None?
  {
    var users := SeedUsers(passwordHash);
    assert FindByName(users, "greg") == Some(users[0]);
    assert FindByName(users, "manager") == Some(users[1]);
    assert (set a | a in [Role(USER), Role(INVENTORY)]) == {Role(USER), Role(INVENTORY)};
    assert (set a | a in [Role(USER)]) == {Role(USER)};
  }
}
