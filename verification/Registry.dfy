/** The registry as a parameter, and everything the platform derives from it. */
module Registry {
  import opened Prelude

  // ---------- vocabulary ----------

  datatype Role = Member | Admin | Owner

  datatype Transport = Rpc | Command

  datatype Rule = Rule(minRole: Role, transport: Transport, consumes: bool, audit: bool, timeoutMs: SafeInt)

  datatype Limit = Count(n: int) | Unlimited | NotIncluded

  datatype Resource = Resource(key: Str, owner: Str, rules: map<Str, Rule>, limits: map<Str, Limit>)

  datatype Registry = Registry(
    resources: seq<Resource>, operations: seq<Str>, plans: seq<Str>, defaultPlan: Str, services: seq<Str>)

  const DOT: CodeUnit := 46
  const COLON: CodeUnit := 58

  // ---------- roles ----------

  const ORG_ROLES: seq<Role> := [Member, Admin, Owner]

  function Rank(r: Role): nat {
    match r
    case Member => 1
    case Admin => 2
    case Owner => 3
  }

  predicate RoleAtLeast(actual: Role, required: Role) { Rank(actual) >= Rank(required) }

  function RoleName(r: Role): Str {
    match r
    case Member => Lit("member")
    case Admin => Lit("admin")
    case Owner => Lit("owner")
  }

  function RoleNamed(s: Str): Option<Role> {
    if s == RoleName(Member) then Some(Member)
    else if s == RoleName(Admin) then Some(Admin)
    else if s == RoleName(Owner) then Some(Owner)
    else None
  }

  lemma RoleNamesDistinct(r: Role, q: Role)
    ensures RoleName(r) == RoleName(q) <==> r == q
    ensures RoleNamed(RoleName(r)) == Some(r)
  {
    assert |RoleName(Member)| == 6;
    assert RoleName(Admin)[0] == 97 && RoleName(Owner)[0] == 111;
  }

  function AssignableRoles(actor: Role): seq<Role> {
    (if RoleAtLeast(actor, Member) then [Member] else [])
    + (if RoleAtLeast(actor, Admin) then [Admin] else [])
    + (if RoleAtLeast(actor, Owner) then [Owner] else [])
  }

  // ---------- lookups ----------

  function FindResource(rs: seq<Resource>, key: Str): Option<Resource> {
    if rs == [] then None else if rs[0].key == key then Some(rs[0]) else FindResource(rs[1..], key)
  }

  function RuleFor(reg: Registry, resource: Str, operation: Str): Option<Rule> {
    match FindResource(reg.resources, resource)
    case None => None
    case Some(r) => if operation in reg.operations && operation in r.rules then Some(r.rules[operation]) else None
  }

  predicate DotFree(s: Str) { DOT !in s }

  predicate Distinct<T(==)>(xs: seq<T>) { forall i, j | 0 <= i < j < |xs| :: xs[i] != xs[j] }

  /** What TypeScript's types and object literals give: distinct keys, owners that exist, dot-free names. */
  predicate ValidRegistry(reg: Registry) {
    && (forall i, j | 0 <= i < j < |reg.resources| :: reg.resources[i].key != reg.resources[j].key)
    && Distinct(reg.operations)
    && Distinct(reg.services)
    && (forall i | 0 <= i < |reg.resources| :: DotFree(reg.resources[i].key))
    && (forall i | 0 <= i < |reg.resources| :: reg.resources[i].owner in reg.services)
    && (forall i | 0 <= i < |reg.operations| :: DotFree(reg.operations[i]))
    && reg.defaultPlan in reg.plans
  }

  lemma {:induction false} FindResourceAt(rs: seq<Resource>, key: Str) returns (i: nat)
    requires FindResource(rs, key).Some?
    ensures i < |rs| && rs[i].key == key && FindResource(rs, key) == Some(rs[i])
  {
    if rs[0].key == key {
      i := 0;
    } else {
      i := FindResourceAt(rs[1..], key);
      i := i + 1;
    }
  }

  lemma {:induction false} FindResourceIn(rs: seq<Resource>, i: nat)
    requires i < |rs| && forall a, b | 0 <= a < b < |rs| :: rs[a].key != rs[b].key
    ensures FindResource(rs, rs[i].key) == Some(rs[i])
  {
    if i > 0 {
      assert rs[0].key != rs[i].key && rs[1..][i - 1] == rs[i];
      FindResourceIn(rs[1..], i - 1);
    }
  }

  /** Roles are ranked as listed: everybody clears the lowest, only the owner the highest. */
  lemma ClearsExactly(actual: Role, required: Role)
    ensures RoleAtLeast(actual, required) <==>
      required.Member? || actual.Owner? || (actual.Admin? && required.Admin?)
  {
  }

  /** The rule of a declared operation, read off the resource with that key. */
  lemma RuleExactly(reg: Registry, resource: Str, operation: Str, rule: Rule)
    requires ValidRegistry(reg)
    ensures RuleFor(reg, resource, operation) == Some(rule)
      <==> exists i | 0 <= i < |reg.resources| ::
             && reg.resources[i].key == resource && operation in reg.operations
             && operation in reg.resources[i].rules && reg.resources[i].rules[operation] == rule
  {
    if RuleFor(reg, resource, operation) == Some(rule) {
      var i := FindResourceAt(reg.resources, resource);
    }
    if exists i | 0 <= i < |reg.resources| ::
         && reg.resources[i].key == resource && operation in reg.operations
         && operation in reg.resources[i].rules && reg.resources[i].rules[operation] == rule {
      var i :| 0 <= i < |reg.resources| && reg.resources[i].key == resource && operation in reg.operations
               && operation in reg.resources[i].rules && reg.resources[i].rules[operation] == rule;
      FindResourceIn(reg.resources, i);
    }
  }

  // ---------- routes ----------

  datatype Route = Route(
    resource: Str, operation: Str, subject: Str, transport: Transport, owner: Str, event: Option<Str>)

  function Subject(prefix: Str, resource: Str, operation: Str): Str {
    prefix + [DOT] + resource + [DOT] + operation
  }

  function RpcSubject(resource: Str, operation: Str): Str { Subject(Lit("rpc"), resource, operation) }

  function CommandSubject(resource: Str, operation: Str): Str { Subject(Lit("cmd"), resource, operation) }

  function EventSubject(resource: Str, operation: Str): Str { Subject(Lit("evt"), resource, operation) }

  function RouteOf(r: Resource, operation: Str, rule: Rule): Route {
    Route(r.key, operation,
          if rule.transport.Rpc? then RpcSubject(r.key, operation) else CommandSubject(r.key, operation),
          rule.transport, r.owner,
          if rule.audit then Some(EventSubject(r.key, operation)) else None)
  }

  /** OPERATIONS filtered to those the resource declares, mapped. */
  function ResourceRoutes(r: Resource, operations: seq<Str>): seq<Route> {
    if operations == [] then []
    else (if operations[0] in r.rules then [RouteOf(r, operations[0], r.rules[operations[0]])] else [])
         + ResourceRoutes(r, operations[1..])
  }

  function RoutesFrom(rs: seq<Resource>, operations: seq<Str>): seq<Route> {
    if rs == [] then [] else ResourceRoutes(rs[0], operations) + RoutesFrom(rs[1..], operations)
  }

  function Routes(reg: Registry): seq<Route> { RoutesFrom(reg.resources, reg.operations) }

  function FindRoute(routes: seq<Route>, resource: Str, operation: Str): Option<Route> {
    if routes == [] then None
    else if routes[0].resource == resource && routes[0].operation == operation then Some(routes[0])
    else FindRoute(routes[1..], resource, operation)
  }

  lemma {:induction false} ResourceRoutesExactly(r: Resource, operations: seq<Str>, t: Route)
    ensures t in ResourceRoutes(r, operations)
      <==> t.operation in operations && t.operation in r.rules && t == RouteOf(r, t.operation, r.rules[t.operation])
  {
    if operations != [] {
      ResourceRoutesExactly(r, operations[1..], t);
      assert operations == [operations[0]] + operations[1..];
    }
  }

  lemma {:induction false} RoutesFromExactly(rs: seq<Resource>, operations: seq<Str>, t: Route)
    ensures t in RoutesFrom(rs, operations)
      <==> exists i | 0 <= i < |rs| :: t in ResourceRoutes(rs[i], operations)
  {
    if rs != [] {
      RoutesFromExactly(rs[1..], operations, t);
      if t in RoutesFrom(rs[1..], operations) {
        var i :| 0 <= i < |rs[1..]| && t in ResourceRoutes(rs[1..][i], operations);
        assert t in ResourceRoutes(rs[i + 1], operations);
      }
      if exists i | 0 <= i < |rs| :: t in ResourceRoutes(rs[i], operations) {
        var i :| 0 <= i < |rs| && t in ResourceRoutes(rs[i], operations);
        if i > 0 {
          assert rs[1..][i - 1] == rs[i];
        }
      }
    }
  }

  /** A row's columns, with the subjects spelled out. */
  ghost predicate RowOfRule(reg: Registry, t: Route, rule: Rule) {
    && FindResource(reg.resources, t.resource).Some?
    && t.owner == FindResource(reg.resources, t.resource).value.owner
    && t.transport == rule.transport
    && t.subject == Lit(if rule.transport.Rpc? then "rpc." else "cmd.") + t.resource + Lit(".") + t.operation
    && t.event == if rule.audit then Some(Lit("evt.") + t.resource + Lit(".") + t.operation) else None
  }

  lemma SpelledOut(resource: Str, operation: Str)
    ensures RpcSubject(resource, operation) == Lit("rpc.") + resource + Lit(".") + operation
    ensures CommandSubject(resource, operation) == Lit("cmd.") + resource + Lit(".") + operation
    ensures EventSubject(resource, operation) == Lit("evt.") + resource + Lit(".") + operation
  {
    assert Lit("rpc.") == Lit("rpc") + [DOT] && Lit("cmd.") == Lit("cmd") + [DOT] && Lit("evt.") == Lit("evt") + [DOT];
    assert Lit(".") == [DOT];
  }

  /** ROUTES holds one row per declared operation, and nothing else. */
  lemma RoutesExactly(reg: Registry, t: Route)
    requires ValidRegistry(reg)
    ensures t in Routes(reg)
      <==> RuleFor(reg, t.resource, t.operation).Some?
           && RowOfRule(reg, t, RuleFor(reg, t.resource, t.operation).value)
  {
    RoutesAreRows(reg, t);
    SpelledOut(t.resource, t.operation);
    if RuleFor(reg, t.resource, t.operation).Some? {
      var i := FindResourceAt(reg.resources, t.resource);
    }
  }

  lemma RoutesAreRows(reg: Registry, t: Route)
    requires ValidRegistry(reg)
    ensures t in Routes(reg)
      <==> RuleFor(reg, t.resource, t.operation).Some?
           && t == RouteOf(FindResource(reg.resources, t.resource).value, t.operation,
                           RuleFor(reg, t.resource, t.operation).value)
  {
    RoutesFromExactly(reg.resources, reg.operations, t);
    if t in Routes(reg) {
      var i :| 0 <= i < |reg.resources| && t in ResourceRoutes(reg.resources[i], reg.operations);
      ResourceRoutesExactly(reg.resources[i], reg.operations, t);
      FindResourceIn(reg.resources, i);
    }
    if RuleFor(reg, t.resource, t.operation).Some? {
      var i := FindResourceAt(reg.resources, t.resource);
      ResourceRoutesExactly(reg.resources[i], reg.operations, t);
    }
  }

  lemma {:induction false} FindRouteSound(routes: seq<Route>, resource: Str, operation: Str)
    ensures FindRoute(routes, resource, operation).Some? ==>
      var t := FindRoute(routes, resource, operation).value;
      t in routes && t.resource == resource && t.operation == operation
    ensures FindRoute(routes, resource, operation).None? ==>
      forall t | t in routes :: !(t.resource == resource && t.operation == operation)
  {
    if routes != [] {
      FindRouteSound(routes[1..], resource, operation);
      assert routes == [routes[0]] + routes[1..];
    }
  }

  /** Looking a pair up in ROUTES finds its one row exactly when the registry declares it. */
  lemma FindRouteExactly(reg: Registry, resource: Str, operation: Str)
    requires ValidRegistry(reg)
    ensures FindRoute(Routes(reg), resource, operation).Some? <==> RuleFor(reg, resource, operation).Some?
    ensures RuleFor(reg, resource, operation).Some? ==>
      FindRoute(Routes(reg), resource, operation)
      == Some(RouteOf(FindResource(reg.resources, resource).value, operation, RuleFor(reg, resource, operation).value))
    ensures RuleFor(reg, resource, operation).Some? ==>
      var t := FindRoute(Routes(reg), resource, operation).value;
      t.resource == resource && t.operation == operation && RowOfRule(reg, t, RuleFor(reg, resource, operation).value)
  {
    FindRouteRow(reg, resource, operation);
    if RuleFor(reg, resource, operation).Some? {
      var t := FindRoute(Routes(reg), resource, operation).value;
      FindRouteSound(Routes(reg), resource, operation);
      RoutesExactly(reg, t);
    }
  }

  lemma FindRouteRow(reg: Registry, resource: Str, operation: Str)
    requires ValidRegistry(reg)
    ensures FindRoute(Routes(reg), resource, operation).Some? <==> RuleFor(reg, resource, operation).Some?
    ensures RuleFor(reg, resource, operation).Some? ==>
      FindRoute(Routes(reg), resource, operation)
      == Some(RouteOf(FindResource(reg.resources, resource).value, operation, RuleFor(reg, resource, operation).value))
  {
    FindRouteSound(Routes(reg), resource, operation);
    match FindRoute(Routes(reg), resource, operation)
    case Some(t) => RoutesAreRows(reg, t);
    case None =>
      if RuleFor(reg, resource, operation).Some? {
        var i := FindResourceAt(reg.resources, resource);
        var t := RouteOf(FindResource(reg.resources, resource).value, operation,
                         RuleFor(reg, resource, operation).value);
        RoutesAreRows(reg, t);
      }
  }

  // ---------- subjects ----------

  /** The text before the first separator is determined by the whole. */
  lemma SplitAt(sep: CodeUnit, a: Str, b: Str, c: Str, d: Str)
    requires sep !in a && sep !in c && a + [sep] + b == c + [sep] + d
    ensures a == c && b == d
  {
    var s, t := a + [sep] + b, c + [sep] + d;
    assert s[|a|] == sep && t[|c|] == sep;
    assert forall i | 0 <= i < |a| :: s[i] == a[i];
    assert forall i | 0 <= i < |c| :: t[i] == c[i];
    assert |a| == |c|;
    assert a == s[..|a|] && c == t[..|c|];
    assert b == s[|a| + 1..] && d == t[|c| + 1..];
  }

  lemma Prefixes()
    ensures Lit("rpc") == [114, 112, 99] && Lit("cmd") == [99, 109, 100] && Lit("evt") == [101, 118, 116]
  {
  }

  /** A subject names its kind, its resource and its operation unambiguously. */
  lemma SubjectInjective(p: Str, r: Str, o: Str, p': Str, r': Str, o': Str)
    requires DotFree(p) && DotFree(p') && DotFree(r) && DotFree(r')
    requires Subject(p, r, o) == Subject(p', r', o')
    ensures p == p' && r == r' && o == o'
  {
    Assoc(p + [DOT] + r, [DOT], o);
    Assoc(p + [DOT], r, [DOT] + o);
    Assoc(p' + [DOT] + r', [DOT], o');
    Assoc(p' + [DOT], r', [DOT] + o');
    Assoc(r, [DOT], o);
    Assoc(r', [DOT], o');
    SplitAt(DOT, p, r + [DOT] + o, p', r' + [DOT] + o');
    SplitAt(DOT, r, o, r', o');
  }

  lemma RouteNames(reg: Registry, t: Route)
    requires ValidRegistry(reg) && t in Routes(reg)
    ensures DotFree(t.resource) && DotFree(t.operation) && t.owner in reg.services
    ensures t.subject == Subject(if t.transport.Rpc? then Lit("rpc") else Lit("cmd"), t.resource, t.operation)
    ensures t.event.Some? ==> t.event.value == EventSubject(t.resource, t.operation)
  {
    RoutesAreRows(reg, t);
    var i := FindResourceAt(reg.resources, t.resource);
  }

  /** No two routes share a subject, and no route's event subject is any route's request subject. */
  lemma SubjectsPartition(reg: Registry, s: Route, t: Route)
    requires ValidRegistry(reg) && s in Routes(reg) && t in Routes(reg)
    ensures s.subject == t.subject ==> s == t
    ensures s.event.Some? && s.event == t.event ==> s == t
    ensures s.event != Some(t.subject)
  {
    RouteNames(reg, s);
    RouteNames(reg, t);
    RoutesAreRows(reg, s);
    RoutesAreRows(reg, t);
    Prefixes();
    var ps := if s.transport.Rpc? then Lit("rpc") else Lit("cmd");
    var pt := if t.transport.Rpc? then Lit("rpc") else Lit("cmd");
    if s.subject == t.subject {
      SubjectInjective(ps, s.resource, s.operation, pt, t.resource, t.operation);
    }
    if s.event.Some? && s.event == t.event {
      SubjectInjective(Lit("evt"), s.resource, s.operation, Lit("evt"), t.resource, t.operation);
    }
    if s.event == Some(t.subject) {
      SubjectInjective(Lit("evt"), s.resource, s.operation, pt, t.resource, t.operation);
      assert false;
    }
  }

  // ---------- the longest budget ----------

  function Max(a: int, b: int): int { if a >= b then a else b }

  function MaxTimeoutOf(r: Resource, operations: seq<Str>): int {
    if operations == [] then 0
    else Max(if operations[0] in r.rules then r.rules[operations[0]].timeoutMs else 0,
             MaxTimeoutOf(r, operations[1..]))
  }

  function MaxTimeoutFrom(rs: seq<Resource>, operations: seq<Str>): int {
    if rs == [] then 0 else Max(MaxTimeoutOf(rs[0], operations), MaxTimeoutFrom(rs[1..], operations))
  }

  function MaxTimeout(reg: Registry): int { MaxTimeoutFrom(reg.resources, reg.operations) }

  lemma {:induction false} MaxTimeoutOfBounds(r: Resource, operations: seq<Str>)
    ensures MaxTimeoutOf(r, operations) >= 0
    ensures forall o | o in operations && o in r.rules :: r.rules[o].timeoutMs <= MaxTimeoutOf(r, operations)
    ensures MaxTimeoutOf(r, operations) > 0 ==>
      exists o | o in operations && o in r.rules :: r.rules[o].timeoutMs == MaxTimeoutOf(r, operations)
  {
    if operations != [] {
      MaxTimeoutOfBounds(r, operations[1..]);
      assert operations == [operations[0]] + operations[1..];
    }
  }

  lemma {:induction false} MaxTimeoutFromBounds(rs: seq<Resource>, operations: seq<Str>)
    ensures MaxTimeoutFrom(rs, operations) >= 0
    ensures forall i | 0 <= i < |rs| :: MaxTimeoutOf(rs[i], operations) <= MaxTimeoutFrom(rs, operations)
    ensures MaxTimeoutFrom(rs, operations) > 0 ==>
      exists i | 0 <= i < |rs| :: MaxTimeoutOf(rs[i], operations) == MaxTimeoutFrom(rs, operations)
  {
    if rs != [] {
      MaxTimeoutFromBounds(rs[1..], operations);
      MaxTimeoutOfBounds(rs[0], operations);
      assert rs == [rs[0]] + rs[1..];
    }
  }

  /** MAX_TIMEOUT_MS bounds every declared budget, and some declared operation asks for exactly it. */
  lemma MaxTimeoutIsMaximum(reg: Registry)
    requires ValidRegistry(reg)
    ensures forall r, o | RuleFor(reg, r, o).Some? :: RuleFor(reg, r, o).value.timeoutMs <= MaxTimeout(reg)
    ensures MaxTimeout(reg) > 0 ==>
      exists r, o :: RuleFor(reg, r, o).Some? && RuleFor(reg, r, o).value.timeoutMs == MaxTimeout(reg)
  {
    MaxTimeoutFromBounds(reg.resources, reg.operations);
    forall r, o | RuleFor(reg, r, o).Some? ensures RuleFor(reg, r, o).value.timeoutMs <= MaxTimeout(reg) {
      var i := FindResourceAt(reg.resources, r);
      MaxTimeoutOfBounds(reg.resources[i], reg.operations);
    }
    if MaxTimeout(reg) > 0 {
      var i :| 0 <= i < |reg.resources| && MaxTimeoutOf(reg.resources[i], reg.operations) == MaxTimeout(reg);
      var r := reg.resources[i];
      MaxTimeoutOfBounds(r, reg.operations);
      var o :| o in reg.operations && o in r.rules && r.rules[o].timeoutMs == MaxTimeoutOf(r, reg.operations);
      FindResourceIn(reg.resources, i);
      assert RuleFor(reg, r.key, o).Some?;
    }
  }

  // ---------- permissions ----------

  function Permission(resource: Str, operation: Str): Str { resource + [COLON] + operation }

  function PermissionsOf(r: Resource, operations: seq<Str>, role: Role): seq<Str> {
    if operations == [] then []
    else (if operations[0] in r.rules && RoleAtLeast(role, r.rules[operations[0]].minRole)
          then [Permission(r.key, operations[0])] else [])
         + PermissionsOf(r, operations[1..], role)
  }

  function PermissionsFrom(rs: seq<Resource>, operations: seq<Str>, role: Role): seq<Str> {
    if rs == [] then [] else PermissionsOf(rs[0], operations, role) + PermissionsFrom(rs[1..], operations, role)
  }

  function PermissionsForRole(reg: Registry, role: Role): seq<Str> {
    PermissionsFrom(reg.resources, reg.operations, role)
  }

  predicate Can(held: seq<Str>, resource: Str, operation: Str) { Permission(resource, operation) in held }

  lemma {:induction false} PermissionsOfHold(r: Resource, operations: seq<Str>, role: Role, o: Str)
    requires o in operations && o in r.rules && RoleAtLeast(role, r.rules[o].minRole)
    ensures Permission(r.key, o) in PermissionsOf(r, operations, role)
  {
    if operations[0] != o {
      assert o in operations[1..];
      PermissionsOfHold(r, operations[1..], role, o);
    }
  }

  lemma {:induction false} PermissionsFromHold(rs: seq<Resource>, operations: seq<Str>, role: Role, i: nat, p: Str)
    requires i < |rs| && p in PermissionsOf(rs[i], operations, role)
    ensures p in PermissionsFrom(rs, operations, role)
  {
    if i > 0 {
      PermissionsFromHold(rs[1..], operations, role, i - 1, p);
    }
  }

  /** The role gate implies the permission gate: a role that clears minRole holds the permission. */
  lemma RoleHoldsPermission(reg: Registry, role: Role, resource: Str, operation: Str)
    requires RuleFor(reg, resource, operation).Some?
    requires RoleAtLeast(role, RuleFor(reg, resource, operation).value.minRole)
    ensures Can(PermissionsForRole(reg, role), resource, operation)
  {
    var i := FindResourceAt(reg.resources, resource);
    PermissionsOfHold(reg.resources[i], reg.operations, role, operation);
    PermissionsFromHold(reg.resources, reg.operations, role, i, Permission(resource, operation));
  }

  predicate ColonFree(s: Str) { COLON !in s }

  lemma PermissionInjective(a: Str, b: Str, c: Str, d: Str)
    requires ColonFree(a) && ColonFree(c) && Permission(a, b) == Permission(c, d)
    ensures a == c && b == d
  {
    SplitAt(COLON, a, b, c, d);
  }

  lemma {:induction false} PermissionsOfOnly(r: Resource, operations: seq<Str>, role: Role, p: Str) returns (o: Str)
    requires p in PermissionsOf(r, operations, role)
    ensures o in operations && o in r.rules && RoleAtLeast(role, r.rules[o].minRole) && p == Permission(r.key, o)
  {
    if operations[0] in r.rules && RoleAtLeast(role, r.rules[operations[0]].minRole)
       && p == Permission(r.key, operations[0]) {
      o := operations[0];
    } else {
      o := PermissionsOfOnly(r, operations[1..], role, p);
    }
  }

  lemma {:induction false} PermissionsFromOnly(rs: seq<Resource>, operations: seq<Str>, role: Role, p: Str)
    returns (i: nat)
    requires p in PermissionsFrom(rs, operations, role)
    ensures i < |rs| && p in PermissionsOf(rs[i], operations, role)
  {
    if p in PermissionsOf(rs[0], operations, role) {
      i := 0;
    } else {
      i := PermissionsFromOnly(rs[1..], operations, role, p);
      i := i + 1;
    }
  }

  /** With colon-free resource names a role holds a permission exactly when it clears minRole. */
  lemma PermissionExactly(reg: Registry, role: Role, resource: Str, operation: Str)
    requires ValidRegistry(reg) && ColonFree(resource)
    requires forall i | 0 <= i < |reg.resources| :: ColonFree(reg.resources[i].key)
    ensures resource + Lit(":") + operation in PermissionsForRole(reg, role)
      <==> RuleFor(reg, resource, operation).Some?
           && RoleAtLeast(role, RuleFor(reg, resource, operation).value.minRole)
  {
    assert Lit(":") == [COLON];
    var p := Permission(resource, operation);
    if Can(PermissionsForRole(reg, role), resource, operation) {
      var i := PermissionsFromOnly(reg.resources, reg.operations, role, p);
      var o := PermissionsOfOnly(reg.resources[i], reg.operations, role, p);
      PermissionInjective(resource, operation, reg.resources[i].key, o);
      FindResourceIn(reg.resources, i);
    }
    if RuleFor(reg, resource, operation).Some? && RoleAtLeast(role, RuleFor(reg, resource, operation).value.minRole) {
      RoleHoldsPermission(reg, role, resource, operation);
    }
  }

  // ---------- the plan gate ----------

  datatype Decision = Allowed | NotInPlan | LimitReached

  /** checkResourceAccess for one more unit. */
  function CheckResourceAccess(r: Resource, plan: Str, used: int): Decision {
    match if plan in r.limits then r.limits[plan] else NotIncluded
    case NotIncluded => NotInPlan
    case Unlimited => Allowed
    case Count(n) => if used + 1 > n then LimitReached else Allowed
  }

  /** What the plan's entry in the resource's limits says of one more unit. */
  lemma AccessExactly(r: Resource, plan: Str, used: int)
    ensures CheckResourceAccess(r, plan, used) == Allowed <==>
      plan in r.limits && (r.limits[plan].Unlimited? || (r.limits[plan].Count? && used + 1 <= r.limits[plan].n))
    ensures CheckResourceAccess(r, plan, used) == NotInPlan <==> plan !in r.limits || r.limits[plan].NotIncluded?
  {
  }
}
