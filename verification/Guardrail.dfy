/** The two halves of the block: what the gateway signs, what a service and a consumer accept. */
module Guardrail {
  import opened Prelude
  import opened Json
  import opened Canonical
  import opened Registry
  import opened Wiring
  import opened Envelopes
  import opened Wire

  // ---------- privilege escalation ----------

  const ROLE_KEY: Str := Lit("role")

  /** The role a body names, when it names one as a string. */
  function NamedRole(input: Value): Option<Str> {
    if input.Obj? then TextAt(input.fields, ROLE_KEY) else None
  }

  /** The role that must be refused, or None. */
  function RefusedRole(input: Value, actor: Role): Option<Str> {
    match NamedRole(input)
    case None => None
    case Some(s) =>
      if exists r | r in AssignableRoles(actor) :: RoleName(r) == s then None else Some(s)
  }

  /** A body asks for no role, or for a declared one the actor may hand out. */
  predicate NamesNoHigherRole(input: Value, actor: Role) {
    match NamedRole(input)
    case None => true
    case Some(s) => RoleNamed(s).Some? && RoleAtLeast(actor, RoleNamed(s).value)
  }

  lemma RefusedByRank(input: Value, actor: Role)
    ensures RefusedRole(input, actor).None? <==> NamesNoHigherRole(input, actor)
  {
    RoleNamesDistinct(Member, Admin);
    RoleNamesDistinct(Member, Owner);
    RoleNamesDistinct(Admin, Owner);
    match NamedRole(input)
    case None =>
    case Some(s) =>
      if RoleNamed(s).Some? {
        var r := RoleNamed(s).value;
        assert RoleName(r) == s;
        assert r in AssignableRoles(actor) <==> RoleAtLeast(actor, r);
        forall q | q in AssignableRoles(actor) && RoleName(q) == s ensures q == r {
          RoleNamesDistinct(q, r);
        }
      }
  }

  /** The text under `role` in a body, if there is one. */
  ghost predicate AsksFor(input: Value, role: Str) { input.Obj? && Get(input.fields, Lit("role")) == Some(Text(role)) }

  /**
   * A body is refused exactly when it has a text under `role` that is none of the names of the roles up to
   * the actor's own; it is refused for that text.
   */
  lemma RefusedRoleExactly(input: Value, actor: Role, role: Str)
    ensures RefusedRole(input, actor) == Some(role) <==>
      && AsksFor(input, role)
      && role != Lit("member")
      && (role == Lit("admin") ==> actor.Member?)
      && (role == Lit("owner") ==> !actor.Owner?)
  {
    RefusedByRank(input, actor);
    RoleNamesDistinct(Member, Admin);
    RoleNamesDistinct(Member, Owner);
    RoleNamesDistinct(Admin, Owner);
  }

  // ---------- the gateway ----------

  datatype Identity = Identity(userId: Str, orgId: Str, role: Role)

  datatype Entitlements = Entitlements(plan: Str, usage: map<Str, int>)

  /** One dispatch: its arguments, and what its dependencies and the contract answer. */
  datatype Call = Call(
    identity: Option<Identity>, requestId: Str, resource: Str, operation: Str, input: Value,
    rateOk: bool, entitlements: Entitlements, issuedAt: SafeInt, parsed: Option<Value>)

  datatype Failure =
    | UndeclaredOperation | Unauthorized | NoActiveOrg | RoleTooLow | PermissionDenied | EscalationRefused
    | RateLimited | UpgradeRequired(decision: Decision) | InputRejected | NotSignable

  function Used(e: Entitlements, resource: Str): int {
    if resource in e.usage then e.usage[resource] else 0
  }

  function MetaFor(reg: Registry, call: Call, identity: Identity, rule: Rule): Meta {
    Meta(call.requestId, identity.orgId, identity.userId, identity.role, PermissionsForRole(reg, identity.role),
         call.entitlements.plan, call.resource, call.operation, call.issuedAt, call.issuedAt + rule.timeoutMs, None)
  }

  /** Gates 1 to 6, in order. */
  function Gates(reg: Registry, call: Call): Result<(Identity, Rule), Failure> {
    match (FindResource(reg.resources, call.resource), RuleFor(reg, call.resource, call.operation))
    case (Some(resource), Some(rule)) =>
      if call.identity.None? then Err(Unauthorized)
      else
        var identity := call.identity.value;
        if identity.orgId == [] then Err(NoActiveOrg)
        else if !RoleAtLeast(identity.role, rule.minRole) then Err(RoleTooLow)
        else if !Can(PermissionsForRole(reg, identity.role), call.resource, call.operation) then Err(PermissionDenied)
        else if RefusedRole(call.input, identity.role).Some? then Err(EscalationRefused)
        else if !call.rateOk then Err(RateLimited)
        else
          var decision := CheckResourceAccess(resource, call.entitlements.plan, Used(call.entitlements, call.resource));
          if rule.consumes && decision != Allowed then Err(UpgradeRequired(decision))
          else Ok((identity, rule))
    case _ => Err(UndeclaredOperation)
  }

  /** Gates 1 to 7: the envelope that goes on the bus. */
  function Dispatch(reg: Registry, c: Crypto, secret: Str, call: Call): Result<Envelope, Failure> {
    match Gates(reg, call)
    case Err(e) => Err(e)
    case Ok((identity, rule)) =>
      match call.parsed
      case None => Err(InputRejected)
      case Some(payload) =>
        var meta := MetaFor(reg, call, identity, rule);
        match SignRequest(c, secret, meta, payload)
        case None => Err(NotSignable)
        case Some(signature) => Ok(Envelope(meta, payload, signature))
  }

  /** Where dispatch publishes: the command subject for commands, the rpc subject otherwise. */
  function DispatchSubject(reg: Registry, resource: Str, operation: Str): Str {
    match RuleFor(reg, resource, operation)
    case Some(rule) =>
      if rule.transport.Command? then CommandSubject(resource, operation) else RpcSubject(resource, operation)
    case None => []
  }

  const SYSTEM_TIMEOUT_MS := 4000

  function InternalMeta(
    reg: Registry, requestId: Str, orgId: Str, resource: Str, operation: Str, issuedAt: SafeInt): Meta
  {
    Meta(requestId, orgId, Lit("system:gateway"), Owner, [Permission(resource, operation)], reg.defaultPlan,
         resource, operation, issuedAt, issuedAt + SYSTEM_TIMEOUT_MS, None)
  }

  /** signedEnvelopeFor: the calls the gateway makes on its own behalf, over an empty body. */
  function InternalEnvelope(
    reg: Registry, c: Crypto, secret: Str, requestId: Str, orgId: Str, resource: Str, operation: Str, issuedAt: SafeInt)
    : Option<Envelope>
  {
    var meta := InternalMeta(reg, requestId, orgId, resource, operation, issuedAt);
    match SignRequest(c, secret, meta, Obj([]))
    case None => None
    case Some(signature) => Some(Envelope(meta, Obj([]), signature))
  }

  // ---------- the service ----------

  datatype Reason =
    | BadSignature | NoHandler | WrongSubject | Stale(verdict: Verdict) | MissingPermission | Escalation

  datatype Checked =
    | Malformed
    | Refused(meta: Meta, reason: Reason)
    | Admitted(envelope: Envelope, route: Route)

  /** handle up to the handler: each check in order. */
  function Check(
    reg: Registry, c: Crypto, secret: Str, bound: seq<Route>, raw: Value, subject: Str, now: int): Checked
  {
    match ParseEnvelope(reg, raw)
    case None => Malformed
    case Some(e) =>
      if !VerifyRequest(c, secret, e.meta, e.payload, e.signature) then Refused(e.meta, BadSignature)
      else
        match FindRoute(bound, e.meta.resource, e.meta.operation)
        case None => Refused(e.meta, NoHandler)
        case Some(route) =>
          if subject != route.subject then Refused(e.meta, WrongSubject)
          else
            var verdict := CheckFreshness(MaxTimeout(reg), e.meta, route.transport, now, CLOCK_SKEW_MS);
            if !verdict.Fresh? then Refused(e.meta, Stale(verdict))
            else if Permission(e.meta.resource, e.meta.operation) !in e.meta.permissions then
              Refused(e.meta, MissingPermission)
            else if RefusedRole(e.payload, e.meta.role).Some? then Refused(e.meta, Escalation)
            else Admitted(e, route)
  }

  /** How a handler can end: its parsed output, a coded ServiceError, or anything else thrown. */
  datatype Ran = Returned(data: Value) | Coded(error: ErrorBody) | Crashed

  function BindingOf(m: Meta, ok: bool): Binding { Binding(m.requestId, m.resource, m.operation, ok) }

  /** None when even the refusal cannot be signed: the throw leaves handle. */
  function Reject(c: Crypto, secret: Str, b: Binding, error: ErrorBody): Option<Reply>
  {
    match SignReply(c, secret, b, ErrorValue(error))
    case None => None
    case Some(signature) => Some(Refusal(b.requestId, signature, error))
  }

  const INTERNAL_ERROR: ErrorBody :=
    ErrorBody(Lit("INTERNAL"), Lit("The service failed to handle this request."), Undefined)

  const UNTRUSTED: Str := Lit("UNTRUSTED_ENVELOPE")

  function ReasonCode(r: Reason): Str {
    match r
    case NoHandler => Lit("NOT_FOUND")
    case MissingPermission => Lit("PERMISSION_DENIED")
    case Escalation => Lit("PERMISSION_DENIED")
    case Stale(Expired) => Lit("DEADLINE_EXCEEDED")
    case _ => UNTRUSTED
  }

  /** The reply to a request a check refused; its message is whatever text the service writes. */
  function RefusalReply(c: Crypto, secret: Str, m: Meta, r: Reason, message: Str): Option<Reply> {
    Reject(c, secret, BindingOf(m, false), ErrorBody(ReasonCode(r), message, Undefined))
  }

  const UNROUTED: Binding := Binding(Lit("unknown"), Lit("unknown"), Lit("unknown"), false)

  const UNREADABLE_ERROR: ErrorBody :=
    ErrorBody(UNTRUSTED, Lit("The service could not read this message."), Undefined)

  /** Signed once, at boot. */
  function Unreadable(c: Crypto, secret: Str): Option<Reply> { Reject(c, secret, UNROUTED, UNREADABLE_ERROR) }

  const EVENT_BODY: Value := Obj([Field(Lit("outcome"), Text(Lit("success")))])

  /** The event envelope a successful handler emits. */
  function EventEnvelope(c: Crypto, secret: Str, m: Meta): Option<Envelope> {
    match SignEvent(c, secret, m, EVENT_BODY)
    case None => None
    case Some(signature) => Some(Envelope(m, EVENT_BODY, signature))
  }

  /** handle from the handler on. `published` is whether the event's publish resolved. */
  function Respond(c: Crypto, secret: Str, m: Meta, route: Route, ran: Ran, published: bool): Option<Reply> {
    match ran
    case Coded(error) => Reject(c, secret, BindingOf(m, false), error)
    case Crashed => Reject(c, secret, BindingOf(m, false), INTERNAL_ERROR)
    case Returned(data) =>
      if route.event.Some? && !published then Reject(c, secret, BindingOf(m, false), INTERNAL_ERROR)
      else
        match SignReply(c, secret, BindingOf(m, true), data)
        case None => Reject(c, secret, BindingOf(m, false), INTERNAL_ERROR)
        case Some(signature) => Some(Success(m.requestId, signature, data))
  }

  // ---------- reply acceptance ----------

  datatype ReplyError = NotAReply | AnotherRequest | NotSigned

  /** rpcRequest on what it decoded; the binding is the sent meta's, never the reply's. */
  function AcceptReply(c: Crypto, secret: Str, sent: Meta, raw: Value): Result<Reply, ReplyError> {
    match ParseReply(raw)
    case None => Err(NotAReply)
    case Some(r) =>
      if r.requestId != sent.requestId then Err(AnotherRequest)
      else if !VerifyReply(c, secret, BindingOf(sent, r.Success?), Answered(r), r.signature) then Err(NotSigned)
      else Ok(r)
  }

  /** Step 9 of dispatch, on what rpcRequest returned. */
  predicate GatewayAccepts(c: Crypto, secret: Str, sent: Meta, r: Reply) {
    && r.requestId == sent.requestId
    && VerifyReply(c, secret, BindingOf(sent, r.Success?), Answered(r), r.signature)
  }

  // ---------- the consumer ----------

  /** defineConsumer's checks; None is a dropped message. */
  function CheckEvent(reg: Registry, c: Crypto, secret: Str, raw: Value, subject: Str): Option<Meta> {
    match ParseEnvelope(reg, raw)
    case None => None
    case Some(e) =>
      if !VerifyEvent(c, secret, e.meta, e.payload, e.signature) then None
      else if !e.payload.Obj? || TextAt(e.payload.fields, Lit("outcome")) != Some(Lit("success")) then None
      else
        match FindRoute(Routes(reg), e.meta.resource, e.meta.operation)
        case None => None
        case Some(route) => if route.event != Some(subject) then None else Some(e.meta)
  }

  /** The consumer keeps an event exactly when its signature, outcome and subject are an audited route's. */
  lemma EventExactly(reg: Registry, c: Crypto, secret: Str, raw: Value, subject: Str, m: Meta)
    ensures CheckEvent(reg, c, secret, raw, subject) == Some(m)
      <==> exists e, route ::
        && ParseEnvelope(reg, raw) == Some(e) && e.meta == m
        && VerifyEvent(c, secret, m, e.payload, e.signature)
        && e.payload.Obj? && Get(e.payload.fields, Lit("outcome")) == Some(Text(Lit("success")))
        && FindRoute(Routes(reg), m.resource, m.operation) == Some(route) && route.event == Some(subject)
  {
    if ParseEnvelope(reg, raw).Some? {
      var e := ParseEnvelope(reg, raw).value;
      var found := FindRoute(Routes(reg), e.meta.resource, e.meta.operation);
      if CheckEvent(reg, c, secret, raw, subject) == Some(m) {
        assert found == Some(found.value);
      }
    }
  }

  /** Everything handle has established when it reaches the handler. */
  lemma AdmittedMeans(
    reg: Registry, c: Crypto, secret: Str, bound: seq<Route>, raw: Value, subject: Str, now: int,
    e: Envelope, route: Route)
    requires Check(reg, c, secret, bound, raw, subject, now) == Admitted(e, route)
    ensures ParseEnvelope(reg, raw) == Some(e) && VerifyRequest(c, secret, e.meta, e.payload, e.signature)
    ensures FindRoute(bound, e.meta.resource, e.meta.operation) == Some(route) && subject == route.subject
    ensures CheckFreshness(MaxTimeout(reg), e.meta, route.transport, now, CLOCK_SKEW_MS).Fresh?
    ensures Permission(e.meta.resource, e.meta.operation) in e.meta.permissions
    ensures RefusedRole(e.payload, e.meta.role).None?
  {
  }

  /** Of eight questions, k is the first answered no. */
  ghost predicate FirstNo(asks: seq<bool>, k: nat)
    requires |asks| == 8
  {
    k < 8 && !asks[k] && forall i | 0 <= i < k :: asks[i]
  }

  lemma NosInOrder(asks: seq<bool>, k: nat)
    requires |asks| == 8
    ensures (forall i | 0 <= i < 8 :: asks[i]) <==>
      asks[0] && asks[1] && asks[2] && asks[3] && asks[4] && asks[5] && asks[6] && asks[7]
    ensures FirstNo(asks, k) ==>
      && k < 8 && !asks[k] && (k > 0 ==> asks[0]) && (k > 1 ==> asks[1]) && (k > 2 ==> asks[2])
      && (k > 3 ==> asks[3]) && (k > 4 ==> asks[4]) && (k > 5 ==> asks[5]) && (k > 6 ==> asks[6])
  {
  }

  /** What handle asks of a parsed envelope, one after the other; the clock has its three questions. */
  ghost function Checks(
    reg: Registry, c: Crypto, secret: Str, bound: seq<Route>, e: Envelope, subject: Str, now: int): (checks: seq<bool>)
    ensures |checks| == 8
  {
    var route := FindRoute(bound, e.meta.resource, e.meta.operation);
    var budget := e.meta.deadlineAt - e.meta.issuedAt;
    [ VerifyRequest(c, secret, e.meta, e.payload, e.signature),
      route.Some?,
      route.Some? && subject == route.value.subject,
      e.meta.issuedAt <= now + 2000,
      0 < budget <= MaxTimeout(reg) + 2000,
      route.Some? && (route.value.transport.Rpc? ==> now < e.meta.deadlineAt + 2000),
      e.meta.resource + Lit(":") + e.meta.operation in e.meta.permissions,
      RefusedRole(e.payload, e.meta.role).None? ]
  }

  ghost function ReasonOf(k: nat): Reason
    requires k < 8
  {
    [ BadSignature, NoHandler, WrongSubject, Stale(FromTheFuture), Stale(ImpossibleBudget), Stale(Expired),
      MissingPermission, Escalation ][k]
  }

  /** A message is admitted exactly when it is an envelope that passes every check; the first it fails is the reason. */
  lemma CheckExactly(
    reg: Registry, c: Crypto, secret: Str, bound: seq<Route>, raw: Value, subject: Str, now: int)
    ensures ParseEnvelope(reg, raw).None? <==> Check(reg, c, secret, bound, raw, subject, now) == Malformed
    ensures ParseEnvelope(reg, raw).Some? ==>
      var e := ParseEnvelope(reg, raw).value;
      var checks := Checks(reg, c, secret, bound, e, subject, now);
      && (Check(reg, c, secret, bound, raw, subject, now).Admitted? <==> forall k | 0 <= k < 8 :: checks[k])
      && (forall k: nat | FirstNo(checks, k) ::
            Check(reg, c, secret, bound, raw, subject, now) == Refused(e.meta, ReasonOf(k)))
  {
    if ParseEnvelope(reg, raw).Some? {
      var e := ParseEnvelope(reg, raw).value;
      var checks := Checks(reg, c, secret, bound, e, subject, now);
      PermissionText(e.meta);
      NosInOrder(checks, 0);
      forall k: nat | FirstNo(checks, k)
        ensures Check(reg, c, secret, bound, raw, subject, now) == Refused(e.meta, ReasonOf(k))
      {
        NosInOrder(checks, k);
      }
    }
  }

  lemma PermissionText(m: Meta)
    ensures Permission(m.resource, m.operation) == m.resource + Lit(":") + m.operation
  {
    assert Lit(":") == [COLON];
  }

  /**
   * What an envelope out of dispatch carries: the session's identity, the call, the plan and the operation's
   * budget.
   */
  lemma DispatchGated(reg: Registry, c: Crypto, secret: Str, call: Call)
    requires Dispatch(reg, c, secret, call).Ok?
    ensures RuleFor(reg, call.resource, call.operation).Some? && call.identity.Some? && call.parsed.Some?
    ensures var m := Dispatch(reg, c, secret, call).value.meta;
      var rule := RuleFor(reg, call.resource, call.operation).value;
      && m.orgId == call.identity.value.orgId != [] && m.userId == call.identity.value.userId
      && m.role == call.identity.value.role && m.requestId == call.requestId && m.plan == call.entitlements.plan
      && m.resource == call.resource && m.operation == call.operation
      && m.issuedAt == call.issuedAt && m.deadlineAt - m.issuedAt == rule.timeoutMs
      && RoleAtLeast(m.role, rule.minRole)
      && Permission(m.resource, m.operation) in m.permissions
      && m.permissions == PermissionsForRole(reg, call.identity.value.role) && m.traceparent.None?
    ensures Dispatch(reg, c, secret, call).value.payload == call.parsed.value
    ensures SignRequest(c, secret, Dispatch(reg, c, secret, call).value.meta, call.parsed.value)
         == Some(Dispatch(reg, c, secret, call).value.signature)
  {
  }

  /** The plan has room for one more: unlimited, or the usage counted so far and one more within the limit. */
  ghost predicate HasRoom(reg: Registry, call: Call)
    requires FindResource(reg.resources, call.resource).Some?
  {
    var limits := FindResource(reg.resources, call.resource).value.limits;
    var used := if call.resource in call.entitlements.usage then call.entitlements.usage[call.resource] else 0;
    && call.entitlements.plan in limits
    && (limits[call.entitlements.plan].Unlimited?
        || (limits[call.entitlements.plan].Count? && used + 1 <= limits[call.entitlements.plan].n))
  }

  /** What the gates ask, one after the other, of a call to a declared operation. */
  ghost function Asks(reg: Registry, call: Call): (asks: seq<bool>)
    requires RuleFor(reg, call.resource, call.operation).Some?
    ensures |asks| == 8
  {
    var rule := RuleFor(reg, call.resource, call.operation).value;
    [ call.identity.Some?,
      call.identity.Some? && call.identity.value.orgId != [],
      call.identity.Some? && RoleAtLeast(call.identity.value.role, rule.minRole),
      call.identity.Some? && forall role :: AsksFor(call.input, role) ==>
        role == Lit("member") || (role == Lit("admin") && !call.identity.value.role.Member?)
        || (role == Lit("owner") && call.identity.value.role.Owner?),
      call.rateOk,
      rule.consumes ==> HasRoom(reg, call),
      call.parsed.Some?,
      call.parsed.Some? && !Unsignable(call.parsed.value) ]
  }

  /** The failure each of them leads to. */
  ghost function FailureOf(reg: Registry, call: Call, k: nat): Failure
    requires RuleFor(reg, call.resource, call.operation).Some? && k < 8
  {
    var limits := FindResource(reg.resources, call.resource).value.limits;
    var plan := call.entitlements.plan;
    [ Unauthorized, NoActiveOrg, RoleTooLow, EscalationRefused, RateLimited,
      UpgradeRequired(if plan !in limits || limits[plan].NotIncluded? then NotInPlan else LimitReached),
      InputRejected, NotSignable ][k]
  }

  lemma RoleAskedOf(call: Call, actor: Role)
    ensures RefusedRole(call.input, actor).None? <==> forall role :: AsksFor(call.input, role) ==>
      role == Lit("member") || (role == Lit("admin") && !actor.Member?) || (role == Lit("owner") && actor.Owner?)
  {
    RoleNamesDistinct(Member, Admin);
    RoleNamesDistinct(Member, Owner);
    RoleNamesDistinct(Admin, Owner);
    forall role ensures RefusedRole(call.input, actor) == Some(role) <==>
      && AsksFor(call.input, role) && role != Lit("member")
      && (role == Lit("admin") ==> actor.Member?) && (role == Lit("owner") ==> !actor.Owner?)
    {
      RefusedRoleExactly(call.input, actor, role);
    }
    if RefusedRole(call.input, actor).Some? {
      assert AsksFor(call.input, RefusedRole(call.input, actor).value);
    }
  }

  lemma RoomExactly(reg: Registry, call: Call)
    requires RuleFor(reg, call.resource, call.operation).Some?
    ensures var decision := CheckResourceAccess(FindResource(reg.resources, call.resource).value,
                                                call.entitlements.plan, Used(call.entitlements, call.resource));
      && (decision == Allowed <==> HasRoom(reg, call))
      && (decision != Allowed ==> FailureOf(reg, call, 5) == UpgradeRequired(decision))
  {
    AccessExactly(FindResource(reg.resources, call.resource).value, call.entitlements.plan,
                  Used(call.entitlements, call.resource));
  }

  lemma SignsWhenSignable(reg: Registry, c: Crypto, secret: Str, call: Call)
    requires RuleFor(reg, call.resource, call.operation).Some? && call.identity.Some? && call.parsed.Some?
    ensures var meta := MetaFor(reg, call, call.identity.value, RuleFor(reg, call.resource, call.operation).value);
      SignRequest(c, secret, meta, call.parsed.value).Some? <==> !Unsignable(call.parsed.value)
  {
    var meta := MetaFor(reg, call, call.identity.value, RuleFor(reg, call.resource, call.operation).value);
    SignedBodyIsSignable(c, secret, meta, call.parsed.value);
  }

  /**
   * Dispatch publishes exactly what meets every condition, and answers the failure of the first that is not
   * met; that the permission is held need not be asked.
   */
  lemma DispatchExactly(reg: Registry, c: Crypto, secret: Str, call: Call)
    ensures RuleFor(reg, call.resource, call.operation).None? ==>
      Dispatch(reg, c, secret, call) == Err(UndeclaredOperation)
    ensures RuleFor(reg, call.resource, call.operation).Some? ==>
      var asks := Asks(reg, call);
      && (Dispatch(reg, c, secret, call).Ok? <==> forall k | 0 <= k < 8 :: asks[k])
      && (forall k: nat | FirstNo(asks, k) :: Dispatch(reg, c, secret, call) == Err(FailureOf(reg, call, k)))
  {
    if RuleFor(reg, call.resource, call.operation).Some? {
      GatesInOrder(reg, c, secret, call);
      var asks := Asks(reg, call);
      NosInOrder(asks, 0);
      forall k: nat | FirstNo(asks, k) ensures Dispatch(reg, c, secret, call) == Err(FailureOf(reg, call, k)) {
        NosInOrder(asks, k);
      }
    }
  }

  /** Which of the questions is answered no first, if one is. */
  ghost function First(asks: seq<bool>): nat
    requires |asks| == 8
  {
    if !asks[0] then 0 else if !asks[1] then 1 else if !asks[2] then 2 else if !asks[3] then 3
    else if !asks[4] then 4 else if !asks[5] then 5 else if !asks[6] then 6 else 7
  }

  lemma GatesOnly(reg: Registry, call: Call)
    requires RuleFor(reg, call.resource, call.operation).Some?
    ensures var asks := Asks(reg, call);
      && (Gates(reg, call).Ok? <==> asks[0] && asks[1] && asks[2] && asks[3] && asks[4] && asks[5])
      && (Gates(reg, call).Ok? ==>
            Gates(reg, call).value == (call.identity.value, RuleFor(reg, call.resource, call.operation).value))
      && (Gates(reg, call).Err? ==> Gates(reg, call).error == FailureOf(reg, call, First(asks)))
  {
    var rule := RuleFor(reg, call.resource, call.operation);
    if call.identity.Some? {
      var identity := call.identity.value;
      RoleAskedOf(call, identity.role);
      RoomExactly(reg, call);
      if RoleAtLeast(identity.role, rule.value.minRole) {
        RoleHoldsPermission(reg, identity.role, call.resource, call.operation);
      }
    }
  }

  /** The same, condition by condition. */
  lemma GatesInOrder(reg: Registry, c: Crypto, secret: Str, call: Call)
    requires RuleFor(reg, call.resource, call.operation).Some?
    ensures var asks := Asks(reg, call);
      && (Dispatch(reg, c, secret, call).Ok? <==>
            asks[0] && asks[1] && asks[2] && asks[3] && asks[4] && asks[5] && asks[6] && asks[7])
      && (Dispatch(reg, c, secret, call).Err? ==>
            Dispatch(reg, c, secret, call).error == FailureOf(reg, call, First(asks)))
  {
    GatesOnly(reg, call);
    if Gates(reg, call).Ok? && call.parsed.Some? {
      SignsWhenSignable(reg, c, secret, call);
    }
  }

  /** Gate 4 never refuses what gate 3 let through: a permission failure cannot leave dispatch. */
  lemma PermissionGateFollows(reg: Registry, c: Crypto, secret: Str, call: Call)
    ensures Dispatch(reg, c, secret, call) != Err(PermissionDenied)
  {
    if RuleFor(reg, call.resource, call.operation).Some? && call.identity.Some?
       && RoleAtLeast(call.identity.value.role, RuleFor(reg, call.resource, call.operation).value.minRole) {
      RoleHoldsPermission(reg, call.identity.value.role, call.resource, call.operation);
    }
  }

  // ---------- completeness ----------

  /** A contract that names a role passes on the one it was given, or drops it; it never invents a Date there. */
  predicate KeepsOrDropsRole(input: Value, payload: Value) {
    payload.Obj? ==>
      var kept := Get(payload.fields, ROLE_KEY);
      kept.None? || (!kept.value.Stamp? && input.Obj? && Get(input.fields, ROLE_KEY) == kept)
  }

  lemma HeadKeyOnce(fs: seq<Field>)
    requires DistinctKeys(fs) && fs != []
    ensures Get(fs[1..], fs[0].key).None?
  {
    assert forall i | 0 <= i < |fs[1..]| :: fs[1..][i] == fs[i + 1];
    if Get(fs[1..], fs[0].key).Some? {
      var i := GetFrom(fs[1..], fs[0].key);
    }
  }

  lemma {:induction false} GetProjected(fs: seq<Field>, key: Str)
    requires DistinctKeys(fs)
    ensures Get(ProjectFields(fs), key)
         == match Get(fs, key)
            case None => None
            case Some(v) => if v.Undefined? || v.Function? then None else Some(Project(v))
  {
    if fs != [] {
      GetProjected(fs[1..], key);
      HeadKeyOnce(fs);
      if !fs[0].value.Undefined? && !fs[0].value.Function? {
        assert ProjectFields(fs)[1..] == ProjectFields(fs[1..]);
      }
    }
  }

  /** The escalation gate of the service asks about nothing the gateway did not already let through. */
  lemma EscalationAgrees(input: Value, payload: Value, actor: Role)
    requires Valid(payload) && KeepsOrDropsRole(input, payload) && RefusedRole(input, actor).None?
    ensures RefusedRole(Project(payload), actor).None?
  {
    RefusedByRank(input, actor);
    if payload.Obj? {
      GetProjected(payload.fields, ROLE_KEY);
    }
    RefusedByRank(Project(payload), actor);
  }

  lemma SignedBodyIsSignable(c: Crypto, secret: Str, m: Meta, payload: Value)
    ensures SignRequest(c, secret, m, payload).Some? ==> !Unsignable(payload)
    ensures !Unsignable(payload) ==> SignRequest(c, secret, m, payload).Some? && SignEvent(c, secret, m, payload).Some?
  {
    ThrowsExactly(payload);
    if !Unsignable(payload) {
      var h := ContentHash(c, payload).value;
      EnvelopeRecordValid(Request, m, h);
      EnvelopeRecordValid(Event, m, h);
    }
  }

  /** The verifier sees the bytes the signer signed: the JSON trip does not touch them. */
  lemma VerifiesAfterTheWire(c: Crypto, secret: Str, m: Meta, payload: Value)
    requires Valid(payload) && !Unsignable(payload)
    ensures SignRequest(c, secret, m, payload).Some? && SignEvent(c, secret, m, payload).Some?
    ensures VerifyRequest(c, secret, m, Project(payload), SignRequest(c, secret, m, payload).value)
    ensures VerifyEvent(c, secret, m, Project(payload), SignEvent(c, secret, m, payload).value)
  {
    SignedBodyIsSignable(c, secret, m, payload);
    ProjectSame(payload);
  }

  lemma BoundRoute(reg: Registry, owner: Str, handlers: seq<Handler>, resource: Str, operation: Str)
    requires ValidRegistry(reg) && RuleFor(reg, resource, operation).Some?
    requires FindResource(reg.resources, resource).value.owner == owner
    requires DefineService(reg, owner, handlers).Ok?
    ensures FindRoute(DefineService(reg, owner, handlers).value, resource, operation)
         == FindRoute(Routes(reg), resource, operation)
    ensures FindRoute(Routes(reg), resource, operation).Some?
  {
    var bound := DefineService(reg, owner, handlers).value;
    BootExactly(reg, owner, handlers);
    FindRouteExactly(reg, resource, operation);
    FindRouteSound(Routes(reg), resource, operation);
    FindRouteSound(bound, resource, operation);
    var t := FindRoute(Routes(reg), resource, operation).value;
    assert t in bound;
    var u := FindRoute(bound, resource, operation).value;
    RoutesAreRows(reg, u);
    RoutesAreRows(reg, t);
  }

  /** What is left of the service's checks once an envelope is known to verify. */
  lemma AdmitsVerified(
    reg: Registry, c: Crypto, secret: Str, owner: Str, handlers: seq<Handler>, raw: Value, e: Envelope, now: int)
    requires ValidRegistry(reg) && RuleFor(reg, e.meta.resource, e.meta.operation).Some?
    requires FindResource(reg.resources, e.meta.resource).value.owner == owner
    requires DefineService(reg, owner, handlers).Ok?
    requires ParseEnvelope(reg, raw) == Some(e) && VerifyRequest(c, secret, e.meta, e.payload, e.signature)
    requires CheckFreshness(MaxTimeout(reg), e.meta, RuleFor(reg, e.meta.resource, e.meta.operation).value.transport,
                            now, CLOCK_SKEW_MS).Fresh?
    requires Permission(e.meta.resource, e.meta.operation) in e.meta.permissions
    requires RefusedRole(e.payload, e.meta.role).None?
    ensures FindRoute(Routes(reg), e.meta.resource, e.meta.operation).Some?
    ensures Check(reg, c, secret, DefineService(reg, owner, handlers).value, raw,
                  DispatchSubject(reg, e.meta.resource, e.meta.operation), now)
         == Admitted(e, FindRoute(Routes(reg), e.meta.resource, e.meta.operation).value)
  {
    BoundRoute(reg, owner, handlers, e.meta.resource, e.meta.operation);
    FindRouteExactly(reg, e.meta.resource, e.meta.operation);
    var i := FindResourceAt(reg.resources, e.meta.resource);
  }

  /** What has passed once dispatch returns an envelope. */
  lemma DispatchMeans(reg: Registry, c: Crypto, secret: Str, call: Call)
    requires Dispatch(reg, c, secret, call).Ok?
    ensures call.identity.Some? && call.parsed.Some? && RuleFor(reg, call.resource, call.operation).Some?
    ensures var e := Dispatch(reg, c, secret, call).value;
      && e.meta == MetaFor(reg, call, call.identity.value, RuleFor(reg, call.resource, call.operation).value)
      && e.payload == call.parsed.value
      && SignRequest(c, secret, e.meta, e.payload) == Some(e.signature)
      && e.meta.orgId != [] && Permission(e.meta.resource, e.meta.operation) in e.meta.permissions
      && RefusedRole(call.input, e.meta.role).None?
  {
  }

  /** A signed envelope the schema accepts, fresh on arrival and without escalation, is admitted. */
  lemma SignedAdmitted(
    reg: Registry, c: Crypto, secret: Str, e: Envelope, owner: Str, handlers: seq<Handler>, now: int)
    requires ValidRegistry(reg) && Ideal(c) && Acceptable(reg, e.meta) && Valid(e.payload)
    requires SignRequest(c, secret, e.meta, e.payload) == Some(e.signature)
    requires RuleFor(reg, e.meta.resource, e.meta.operation).Some?
    requires FindResource(reg.resources, e.meta.resource).value.owner == owner
    requires DefineService(reg, owner, handlers).Ok?
    requires CheckFreshness(MaxTimeout(reg), e.meta, RuleFor(reg, e.meta.resource, e.meta.operation).value.transport,
                            now, CLOCK_SKEW_MS).Fresh?
    requires Permission(e.meta.resource, e.meta.operation) in e.meta.permissions
    requires RefusedRole(Project(e.payload), e.meta.role).None?
    ensures OnTheWire(EnvelopeValue(e)).Some?
    ensures FindRoute(Routes(reg), e.meta.resource, e.meta.operation).Some?
    ensures Check(reg, c, secret, DefineService(reg, owner, handlers).value, OnTheWire(EnvelopeValue(e)).value,
                  DispatchSubject(reg, e.meta.resource, e.meta.operation), now)
         == Admitted(e.(payload := Project(e.payload)), FindRoute(Routes(reg), e.meta.resource, e.meta.operation).value)
  {
    SignedBodyIsSignable(c, secret, e.meta, e.payload);
    EnvelopeOverTheWire(reg, e);
    VerifiesAfterTheWire(c, secret, e.meta, e.payload);
    AdmitsVerified(reg, c, secret, owner, handlers, OnTheWire(EnvelopeValue(e)).value,
                   e.(payload := Project(e.payload)), now);
  }

  /** A budget from the registry is fresh as long as the clocks agree to the skew and an rpc is in time. */
  lemma BudgetIsFresh(reg: Registry, m: Meta, rule: Rule, now: int)
    requires ValidRegistry(reg) && RuleFor(reg, m.resource, m.operation) == Some(rule)
    requires m.deadlineAt == m.issuedAt + rule.timeoutMs && rule.timeoutMs > 0
    requires m.issuedAt <= now + CLOCK_SKEW_MS
    requires rule.transport.Rpc? ==> now < m.deadlineAt + CLOCK_SKEW_MS
    ensures CheckFreshness(MaxTimeout(reg), m, rule.transport, now, CLOCK_SKEW_MS).Fresh?
  {
    var i := FindResourceAt(reg.resources, m.resource);
    MaxTimeoutIsMaximum(reg);
  }

  /**
   * What the gateway builds, the owning service admits: same meta, the payload's JSON image, and the
   * route of the operation. The clocks may differ by the skew, and an rpc must arrive in time.
   */
  lemma HandshakeComplete(
    reg: Registry, c: Crypto, secret: Str, call: Call, handlers: seq<Handler>, now: int)
    requires ValidRegistry(reg) && Ideal(c)
    requires Dispatch(reg, c, secret, call).Ok?
    requires |call.requestId| >= 8 && call.identity.value.userId != [] && call.entitlements.plan in reg.plans
    requires Valid(call.parsed.value) && KeepsOrDropsRole(call.input, call.parsed.value)
    requires RuleFor(reg, call.resource, call.operation).value.timeoutMs > 0
    requires SafeInteger(call.issuedAt + RuleFor(reg, call.resource, call.operation).value.timeoutMs)
    requires DefineService(reg, FindResource(reg.resources, call.resource).value.owner, handlers).Ok?
    requires call.issuedAt <= now + CLOCK_SKEW_MS
    requires RuleFor(reg, call.resource, call.operation).value.transport.Rpc? ==>
      now < call.issuedAt + RuleFor(reg, call.resource, call.operation).value.timeoutMs + CLOCK_SKEW_MS
    ensures var e := Dispatch(reg, c, secret, call).value;
      && OnTheWire(EnvelopeValue(e)).Some?
      && FindRoute(Routes(reg), call.resource, call.operation).Some?
      && Check(reg, c, secret,
               DefineService(reg, FindResource(reg.resources, call.resource).value.owner, handlers).value,
               OnTheWire(EnvelopeValue(e)).value, DispatchSubject(reg, call.resource, call.operation), now)
         == Admitted(e.(payload := Project(e.payload)), FindRoute(Routes(reg), call.resource, call.operation).value)
  {
    DispatchMeans(reg, c, secret, call);
    var e := Dispatch(reg, c, secret, call).value;
    var i := FindResourceAt(reg.resources, call.resource);
    RuleOperation(reg, call.resource, call.operation);
    BudgetIsFresh(reg, e.meta, RuleFor(reg, call.resource, call.operation).value, now);
    EscalationAgrees(call.input, e.payload, e.meta.role);
    SignedAdmitted(reg, c, secret, e, reg.resources[i].owner, handlers, now);
  }

  lemma RuleOperation(reg: Registry, resource: Str, operation: Str)
    requires ValidRegistry(reg) && RuleFor(reg, resource, operation).Some?
    ensures operation in reg.operations && FindResource(reg.resources, resource).Some?
  {
    var i := FindResourceAt(reg.resources, resource);
  }

  lemma AdmittedIsFresh(
    reg: Registry, c: Crypto, secret: Str, bound: seq<Route>, raw: Value, subject: Str, now: int, e: Envelope)
    requires ParseEnvelope(reg, raw) == Some(e) && Check(reg, c, secret, bound, raw, subject, now).Admitted?
    ensures e.meta.issuedAt <= now + CLOCK_SKEW_MS
    ensures 0 < e.meta.deadlineAt - e.meta.issuedAt <= MaxTimeout(reg) + CLOCK_SKEW_MS
  {
  }

  lemma InternalSigned(c: Crypto, secret: Str, reg: Registry, meta: Meta)
    requires Ideal(c) && Acceptable(reg, meta)
    ensures SignRequest(c, secret, meta, Obj([])).Some?
    ensures var e := Envelope(meta, Obj([]), SignRequest(c, secret, meta, Obj([])).value);
      && OnTheWire(EnvelopeValue(e)).Some?
      && ParseEnvelope(reg, OnTheWire(EnvelopeValue(e)).value) == Some(e)
      && VerifyRequest(c, secret, e.meta, e.payload, e.signature)
  {
    SignedBodyIsSignable(c, secret, meta, Obj([]));
    EnvelopeOverTheWire(reg, Envelope(meta, Obj([]), SignRequest(c, secret, meta, Obj([])).value));
    assert Project(Obj([])) == Obj([]);
  }

  lemma InternalFresh(reg: Registry, m: Meta, transport: Transport, now: int)
    requires m.deadlineAt == m.issuedAt + SYSTEM_TIMEOUT_MS && SYSTEM_TIMEOUT_MS <= MaxTimeout(reg) + CLOCK_SKEW_MS
    requires m.issuedAt <= now + CLOCK_SKEW_MS && now < m.deadlineAt + CLOCK_SKEW_MS
    ensures CheckFreshness(MaxTimeout(reg), m, transport, now, CLOCK_SKEW_MS).Fresh?
  {
  }

  lemma EmptyBodyNamesNoRole(payload: Value, actor: Role)
    requires payload == Obj([])
    ensures Valid(payload) && RefusedRole(Project(payload), actor).None?
  {
    assert Project(Obj([])) == Obj([]);
  }

  lemma InternalAdmitted(
    reg: Registry, c: Crypto, secret: Str, e: Envelope, owner: Str, handlers: seq<Handler>, now: int)
    requires ValidRegistry(reg) && Ideal(c) && Acceptable(reg, e.meta) && e.payload == Obj([])
    requires SignRequest(c, secret, e.meta, e.payload) == Some(e.signature)
    requires RuleFor(reg, e.meta.resource, e.meta.operation).Some?
    requires FindResource(reg.resources, e.meta.resource).value.owner == owner
    requires DefineService(reg, owner, handlers).Ok?
    requires e.meta.permissions == [Permission(e.meta.resource, e.meta.operation)]
    requires e.meta.deadlineAt == e.meta.issuedAt + SYSTEM_TIMEOUT_MS
      && SYSTEM_TIMEOUT_MS <= MaxTimeout(reg) + CLOCK_SKEW_MS
    requires e.meta.issuedAt <= now + CLOCK_SKEW_MS && now < e.meta.deadlineAt + CLOCK_SKEW_MS
    ensures OnTheWire(EnvelopeValue(e)).Some?
    ensures Check(reg, c, secret, DefineService(reg, owner, handlers).value, OnTheWire(EnvelopeValue(e)).value,
                  DispatchSubject(reg, e.meta.resource, e.meta.operation), now).Admitted?
  {
    InternalFresh(reg, e.meta, RuleFor(reg, e.meta.resource, e.meta.operation).value.transport, now);
    EmptyBodyNamesNoRole(e.payload, e.meta.role);
    SignedAdmitted(reg, c, secret, e, owner, handlers, now);
  }

  /**
   * A call the gateway makes for itself is admitted exactly when its fixed budget is one the registry
   * could have issued.
   */
  lemma InternalComplete(
    reg: Registry, c: Crypto, secret: Str, requestId: Str, orgId: Str, resource: Str, operation: Str, issuedAt: SafeInt,
    handlers: seq<Handler>, now: int)
    requires ValidRegistry(reg) && Ideal(c)
    requires |requestId| >= 8 && orgId != [] && RuleFor(reg, resource, operation).Some?
    requires SafeInteger(issuedAt + SYSTEM_TIMEOUT_MS)
    requires DefineService(reg, FindResource(reg.resources, resource).value.owner, handlers).Ok?
    requires issuedAt <= now + CLOCK_SKEW_MS && now < issuedAt + SYSTEM_TIMEOUT_MS + CLOCK_SKEW_MS
    ensures InternalEnvelope(reg, c, secret, requestId, orgId, resource, operation, issuedAt).Some?
    ensures var e := InternalEnvelope(reg, c, secret, requestId, orgId, resource, operation, issuedAt).value;
      && OnTheWire(EnvelopeValue(e)).Some?
      && (Check(reg, c, secret, DefineService(reg, FindResource(reg.resources, resource).value.owner, handlers).value,
                OnTheWire(EnvelopeValue(e)).value, DispatchSubject(reg, resource, operation), now).Admitted?
          <==> SYSTEM_TIMEOUT_MS <= MaxTimeout(reg) + CLOCK_SKEW_MS)
  {
    var meta := InternalMeta(reg, requestId, orgId, resource, operation, issuedAt);
    var owner := FindResource(reg.resources, resource).value.owner;
    RuleOperation(reg, resource, operation);
    assert |Lit("system:gateway")| == 14;
    InternalSigned(c, secret, reg, meta);
    var e := InternalEnvelope(reg, c, secret, requestId, orgId, resource, operation, issuedAt).value;
    if SYSTEM_TIMEOUT_MS <= MaxTimeout(reg) + CLOCK_SKEW_MS {
      InternalAdmitted(reg, c, secret, e, owner, handlers, now);
    } else if Check(reg, c, secret, DefineService(reg, owner, handlers).value, OnTheWire(EnvelopeValue(e)).value,
                    DispatchSubject(reg, resource, operation), now).Admitted? {
      AdmittedIsFresh(reg, c, secret, DefineService(reg, owner, handlers).value, OnTheWire(EnvelopeValue(e)).value,
                      DispatchSubject(reg, resource, operation), now, e);
    }
  }

  /** Such a call is an owner's, in the name of the system, on the default plan, for four seconds. */
  lemma InternalExactly(
    reg: Registry, c: Crypto, secret: Str, requestId: Str, orgId: Str, resource: Str, operation: Str, issuedAt: SafeInt,
    e: Envelope)
    ensures InternalEnvelope(reg, c, secret, requestId, orgId, resource, operation, issuedAt) == Some(e)
      <==> && e.meta.requestId == requestId && e.meta.orgId == orgId && e.meta.userId == Lit("system:gateway")
           && e.meta.role == Owner && e.meta.permissions == [resource + Lit(":") + operation]
           && e.meta.plan == reg.defaultPlan && e.meta.resource == resource && e.meta.operation == operation
           && e.meta.issuedAt == issuedAt && e.meta.deadlineAt == issuedAt + 4000 && e.meta.traceparent == None
           && e.payload == Obj([]) && SignRequest(c, secret, e.meta, e.payload) == Some(e.signature)
  {
    assert Lit(":") == [COLON];
  }

  // ---------- replies ----------

  /** A reply signed for a request is accepted for it at both of the gateway's checks. */
  lemma SignedReplyAccepted(c: Crypto, secret: Str, m: Meta, r: Reply)
    requires Ideal(c) && r.requestId == m.requestId != [] && Valid(Answered(r))
    requires SignReply(c, secret, BindingOf(m, r.Success?), Answered(r)) == Some(r.signature)
    ensures OnTheWire(ReplyValue(r)).Some?
    ensures AcceptReply(c, secret, m, OnTheWire(ReplyValue(r)).value) == Ok(Received(r))
    ensures GatewayAccepts(c, secret, m, Received(r))
  {
    ThrowsExactly(Answered(r));
    ReplyOverTheWire(r);
    ProjectAnswered(r);
    ProjectSame(Answered(r));
  }

  function CodeOf(body: Value): Option<Str> {
    if body.Obj? then TextAt(body.fields, ERROR_SHAPE[0]) else None
  }

  lemma CodeRead(e: ErrorBody)
    ensures CodeOf(ErrorValue(e)) == Some(e.code)
  {
    assert ErrorValue(e).fields[0] == Field(ERROR_SHAPE[0], Text(e.code));
  }

  /** A body signed for a refusal has the code of the refusal it is accepted as. */
  lemma SameCode(body: Value, e: ErrorBody)
    requires Same(body, ErrorValue(e))
    ensures CodeOf(body).Some? ==> CodeOf(body) == Some(e.code)
  {
    CodeRead(e);
    if CodeOf(body).Some? {
      var i := GetFrom(body.fields, ERROR_SHAPE[0]);
      assert Same(body.fields[i].value, Get(ErrorValue(e).fields, body.fields[i].key).value);
    }
  }

  lemma ErrorValueValid(e: ErrorBody)
    requires Valid(e.data)
    ensures Valid(ErrorValue(e))
    ensures Unsignable(ErrorValue(e)) <==> !e.data.Undefined? && Unsignable(e.data)
  {
    ReplyShapesDistinct();
    if e.data.Undefined? {
      RecordValid(ERROR_SHAPE[..2], [Text(e.code), Text(e.message)]);
    } else {
      var values := [Text(e.code), Text(e.message), e.data];
      RecordOrder(ERROR_SHAPE, values);
      if Unsignable(e.data) {
        assert Record(ERROR_SHAPE, values)[2].value == e.data;
      } else {
        RecordValid(ERROR_SHAPE, values);
      }
    }
  }

  lemma RejectAccepted(c: Crypto, secret: Str, m: Meta, e: ErrorBody)
    requires Ideal(c) && m.requestId != [] && Valid(e.data)
    ensures Reject(c, secret, BindingOf(m, false), e).Some? <==> e.data.Undefined? || !Unsignable(e.data)
    ensures Reject(c, secret, BindingOf(m, false), e).Some? ==>
      var r := Reject(c, secret, BindingOf(m, false), e).value;
      && OnTheWire(ReplyValue(r)).Some?
      && AcceptReply(c, secret, m, OnTheWire(ReplyValue(r)).value) == Ok(Received(r))
      && GatewayAccepts(c, secret, m, Received(r))
  {
    ErrorValueValid(e);
    ThrowsExactly(ErrorValue(e));
    if !Unsignable(ErrorValue(e)) {
      ReplyRecordValid(BindingOf(m, false), ContentHash(c, ErrorValue(e)).value);
      SignedReplyAccepted(c, secret, m, Reject(c, secret, BindingOf(m, false), e).value);
    }
  }

  ghost predicate ValidRan(ran: Ran) {
    match ran
    case Returned(data) => Valid(data)
    case Coded(error) => Valid(error.data)
    case Crashed => true
  }

  /**
   * Whatever a handler does, the reply handle signs is accepted for the request it answers; there is
   * no reply only when a ServiceError carries data that cannot be signed.
   */
  lemma ReplyAgreement(c: Crypto, secret: Str, m: Meta, route: Route, ran: Ran, published: bool)
    requires Ideal(c) && m.requestId != [] && ValidRan(ran)
    ensures Respond(c, secret, m, route, ran, published).None?
      <==> ran.Coded? && !ran.error.data.Undefined? && Unsignable(ran.error.data)
    ensures Respond(c, secret, m, route, ran, published).Some? ==>
      var r := Respond(c, secret, m, route, ran, published).value;
      && OnTheWire(ReplyValue(r)).Some?
      && AcceptReply(c, secret, m, OnTheWire(ReplyValue(r)).value) == Ok(Received(r))
      && GatewayAccepts(c, secret, m, Received(r))
    ensures Respond(c, secret, m, route, ran, published).Some? ==>
      var r := Respond(c, secret, m, route, ran, published).value;
      && r.requestId == m.requestId
      && (ran.Coded? ==> r.Refusal? && r.error == ran.error)
      && (ran.Crashed? ==> r.Refusal? && r.error.code == Lit("INTERNAL") && r.error.data.Undefined?)
  {
    RejectAccepted(c, secret, m, INTERNAL_ERROR);
    match ran
    case Coded(error) => RejectAccepted(c, secret, m, error);
    case Crashed =>
    case Returned(data) =>
      if (route.event.None? || published) && SignReply(c, secret, BindingOf(m, true), data).Some? {
        SignedReplyAccepted(c, secret, m, Respond(c, secret, m, route, ran, published).value);
      }
  }

  /**
   * What a handler returned is answered with a refusal exactly when the event's publish failed or the
   * output cannot be signed, though the handler has run.
   */
  lemma RefusedAfterReturn(c: Crypto, secret: Str, m: Meta, route: Route, data: Value, published: bool)
    requires Valid(data)
    ensures Respond(c, secret, m, route, Returned(data), published).Some?
    ensures var r := Respond(c, secret, m, route, Returned(data), published).value;
      && r.requestId == m.requestId
      && if (route.event.Some? && !published) || Unsignable(data)
         then r.Refusal? && r.error.code == Lit("INTERNAL") && r.error.data.Undefined?
         else r.Success? && r.data == data
  {
    ThrowsExactly(data);
    ErrorValueValid(INTERNAL_ERROR);
    ThrowsExactly(ErrorValue(INTERNAL_ERROR));
    ReplyRecordValid(BindingOf(m, false), ContentHash(c, ErrorValue(INTERNAL_ERROR)).value);
    if !Unsignable(data) {
      ReplyRecordValid(BindingOf(m, true), ContentHash(c, data).value);
    }
  }

  /** A message whose body holds a number too large fails at the signature, whatever signature it carries. */
  lemma HugeRefused(
    reg: Registry, c: Crypto, secret: Str, bound: seq<Route>, raw: Value, subject: Str, now: int, sent: Meta)
    ensures ParseEnvelope(reg, raw).Some? && Unsignable(ParseEnvelope(reg, raw).value.payload) ==>
      && Check(reg, c, secret, bound, raw, subject, now)
         == Refused(ParseEnvelope(reg, raw).value.meta, BadSignature)
      && CheckEvent(reg, c, secret, raw, subject).None?
    ensures ParseReply(raw).Some? && Unsignable(Answered(ParseReply(raw).value)) ==>
      AcceptReply(c, secret, sent, raw).Err?
  {
    if ParseEnvelope(reg, raw).Some? {
      ThrowsExactly(ParseEnvelope(reg, raw).value.payload);
    }
    if ParseReply(raw).Some? {
      ThrowsExactly(Answered(ParseReply(raw).value));
    }
  }

  /** A request refused by a check is told so by a reply it accepts. */
  lemma RefusalAccepted(c: Crypto, secret: Str, m: Meta, reason: Reason, message: Str)
    requires Ideal(c) && m.requestId != []
    ensures RefusalReply(c, secret, m, reason, message).Some?
    ensures var r := RefusalReply(c, secret, m, reason, message).value;
      && OnTheWire(ReplyValue(r)).Some?
      && AcceptReply(c, secret, m, OnTheWire(ReplyValue(r)).value) == Ok(r)
      && GatewayAccepts(c, secret, m, r)
      && r.Refusal? && r.error.message == message && r.error.data.Undefined?
      && r.error.code == match reason
                         case NoHandler => Lit("NOT_FOUND")
                         case MissingPermission => Lit("PERMISSION_DENIED")
                         case Escalation => Lit("PERMISSION_DENIED")
                         case Stale(verdict) =>
                           if verdict.Expired? then Lit("DEADLINE_EXCEEDED") else Lit("UNTRUSTED_ENVELOPE")
                         case _ => Lit("UNTRUSTED_ENVELOPE")
  {
    RejectAccepted(c, secret, m, ErrorBody(ReasonCode(reason), message, Undefined));
  }

  /** An accepted reply's signature was made for this request, this operation and this outcome. */
  lemma AcceptedReplyBelongs(c: Crypto, secret: Str, sent: Meta, raw: Value, b: Binding, data: Value)
    requires Ideal(c) && AcceptReply(c, secret, sent, raw).Ok?
    requires Valid(data) && Valid(Answered(AcceptReply(c, secret, sent, raw).value))
    requires SignReply(c, secret, b, data) == Some(AcceptReply(c, secret, sent, raw).value.signature)
    ensures var r := AcceptReply(c, secret, sent, raw).value;
      && b == Binding(sent.requestId, sent.resource, sent.operation, r.Success?)
      && Same(data, if r.Success? then r.data else ErrorValue(r.error))
  {
    var r := AcceptReply(c, secret, sent, raw).value;
    ReplyBytesExactly(c, b, data, BindingOf(sent, r.Success?), Answered(r));
  }

  /**
   * A reply accepted for one request is accepted for another exactly when the two agree on request id,
   * resource and operation: organisation, user and payload are not bound.
   */
  lemma AcceptedForExactly(c: Crypto, secret: Str, m: Meta, n: Meta, raw: Value)
    requires Ideal(c) && AcceptReply(c, secret, m, raw).Ok? && Valid(Answered(AcceptReply(c, secret, m, raw).value))
    ensures AcceptReply(c, secret, n, raw).Ok?
      <==> n.requestId == m.requestId && n.resource == m.resource && n.operation == m.operation
  {
    var r := AcceptReply(c, secret, m, raw).value;
    ReplyVerifiesExactly(c, secret, BindingOf(m, r.Success?), BindingOf(n, r.Success?), Answered(r), r.signature);
  }

  /** The two refusals that name no request answer none: "unknown" is shorter than any request id. */
  lemma UnknownAnswersNobody(c: Crypto, secret: Str, sent: Meta, raw: Value, r: Reply)
    requires |sent.requestId| >= 8 && Unreadable(c, secret) == Some(r)
    requires ParseReply(raw) == Some(r)
    ensures AcceptReply(c, secret, sent, raw) == Err(AnotherRequest)
    ensures !GatewayAccepts(c, secret, sent, r)
  {
    assert |Lit("unknown")| == 7;
  }

  /** The answer signed at boot names no request, resource or operation, and says the envelope is not trusted. */
  lemma UnreadableExactly(c: Crypto, secret: Str, r: Reply)
    ensures Unreadable(c, secret) == Some(r)
      <==> && r.Refusal? && r.requestId == Lit("unknown") && r.error.code == Lit("UNTRUSTED_ENVELOPE")
           && r.error.message == Lit("The service could not read this message.") && r.error.data.Undefined?
           && SignReply(c, secret, Binding(Lit("unknown"), Lit("unknown"), Lit("unknown"), false),
                        ErrorValue(r.error)) == Some(r.signature)
  {
  }

  // ---------- events ----------

  lemma EventBody()
    ensures Valid(EVENT_BODY) && !Unsignable(EVENT_BODY) && Project(EVENT_BODY) == EVENT_BODY
  {
    var fs := EVENT_BODY.fields;
    assert ProjectFields(fs) == fs;
  }

  /** The event a service emits for an admitted request is accepted on the route's event subject. */
  lemma EventComplete(reg: Registry, c: Crypto, secret: Str, m: Meta, route: Route)
    requires Ideal(c) && Acceptable(reg, m)
    requires FindRoute(Routes(reg), m.resource, m.operation) == Some(route) && route.event.Some?
    ensures EventEnvelope(c, secret, m).Some?
    ensures OnTheWire(EnvelopeValue(EventEnvelope(c, secret, m).value)).Some?
    ensures CheckEvent(reg, c, secret, OnTheWire(EnvelopeValue(EventEnvelope(c, secret, m).value)).value,
                       route.event.value)
         == Some(m)
  {
    EventBody();
    VerifiesAfterTheWire(c, secret, m, EVENT_BODY);
    var e := EventEnvelope(c, secret, m).value;
    EnvelopeOverTheWire(reg, e);
    EventVerified(reg, c, secret, OnTheWire(EnvelopeValue(e)).value, e, route);
  }

  lemma OutcomeRead()
    ensures TextAt(EVENT_BODY.fields, Lit("outcome")) == Some(Lit("success"))
  {
    assert EVENT_BODY.fields[0].key == Lit("outcome");
  }

  lemma EventVerified(reg: Registry, c: Crypto, secret: Str, raw: Value, e: Envelope, route: Route)
    requires ParseEnvelope(reg, raw) == Some(e) && VerifyEvent(c, secret, e.meta, e.payload, e.signature)
    requires e.payload == EVENT_BODY && FindRoute(Routes(reg), e.meta.resource, e.meta.operation) == Some(route)
    requires route.event.Some?
    ensures CheckEvent(reg, c, secret, raw, route.event.value) == Some(e.meta)
  {
    OutcomeRead();
  }

  /** An event envelope presented as a request fails at the signature, on every subject. */
  lemma EventIsNoRequest(
    reg: Registry, c: Crypto, secret: Str, bound: seq<Route>, raw: Value, m: Meta, subject: Str, now: int)
    requires Ideal(c) && ParseEnvelope(reg, raw).Some? && Valid(ParseEnvelope(reg, raw).value.payload)
    requires SignEvent(c, secret, m, EVENT_BODY) == Some(ParseEnvelope(reg, raw).value.signature)
    ensures Check(reg, c, secret, bound, raw, subject, now)
         == Refused(ParseEnvelope(reg, raw).value.meta, BadSignature)
  {
    var e := ParseEnvelope(reg, raw).value;
    EventBody();
    VerifiesExactly(c, secret, Event, m, EVENT_BODY, e.meta, e.payload);
  }
}
