/** Every run of the bus: what may be published by anyone, and what nevertheless holds of what is executed. */
module Bus {
  import opened Prelude
  import opened Json
  import opened Canonical
  import opened Registry
  import opened Wiring
  import opened Envelopes
  import opened Wire
  import opened Guardrail

  /** A deployment: one registry, one secret, and the routes each running service bound at boot. */
  datatype Config = Config(reg: Registry, c: Crypto, secret: Str, services: map<Str, seq<Route>>)

  ghost predicate ValidConfig(cfg: Config) {
    && ValidRegistry(cfg.reg)
    && Ideal(cfg.c)
    && forall s | s in cfg.services :: Booted(cfg.reg, s, cfg.services[s])
  }

  ghost predicate Booted(reg: Registry, service: Str, bound: seq<Route>) {
    exists handlers :: DefineService(reg, service, handlers) == Ok(bound)
  }

  /** What happened, in order. Only the first, second, fourth and fifth kinds use the secret to sign. */
  datatype Entry =
    | Dispatched(call: Call, sent: Envelope)
    | Internal(requestId: Str, orgId: Str, resource: Str, operation: Str, issuedAt: SafeInt, sent: Envelope)
    | Executed(service: Str, envelope: Envelope, subject: Str, now: int)
    | Emitted(meta: Meta)
    | Replied(binding: Binding, body: Value)
    | Consumed(meta: Meta, subject: Str)
    | Accepted(meta: Meta, reply: Reply)

  /** A message on the bus; `body` is what JSON.parse makes of its bytes. */
  datatype Message = Message(subject: Str, body: Value)

  /** Published messages are never removed: any of them may arrive again, late, or out of order. */
  datatype State = State(log: seq<Entry>, net: set<Message>)

  datatype Step =
    | DoDispatch(call: Call)
    | DoInternal(requestId: Str, orgId: Str, resource: Str, operation: Str, issuedAt: SafeInt)
    | Publish(message: Message)
    | Deliver(service: Str, message: Message, now: int, ran: Ran, published: bool, died: bool, text: Str)
    | DeliverEvent(message: Message)
    | Answer(asked: Meta, message: Message)

  // ---------- who can sign ----------

  ghost function SignedBytes(cfg: Config, e: Entry): Option<Str> {
    match e
    case Dispatched(_, sent) => CanonicalEnvelope(cfg.c, Request, sent.meta, sent.payload)
    case Internal(_, _, _, _, _, sent) => CanonicalEnvelope(cfg.c, Request, sent.meta, sent.payload)
    case Emitted(meta) => CanonicalEnvelope(cfg.c, Event, meta, EVENT_BODY)
    case Replied(binding, body) => CanonicalReply(cfg.c, binding, body)
    case _ => None
  }

  ghost predicate Signed(cfg: Config, log: seq<Entry>, bytes: Str) {
    exists i | 0 <= i < |log| :: SignedBytes(cfg, log[i]) == Some(bytes)
  }

  /** A MAC can be copied, never made without the secret: if the signature is one, its bytes were signed. */
  ghost predicate Unforged(cfg: Config, log: seq<Entry>, v: Value) {
    forall b: Str | SignatureOf(v) == Some(cfg.c.mac(cfg.secret, b)) :: Signed(cfg, log, b)
  }

  // ---------- steps ----------

  function Carry(net: set<Message>, subject: Str, v: Option<Value>): set<Message> {
    match v
    case None => net
    case Some(body) => net + {Message(subject, body)}
  }

  function Post(s: State, b: Binding, reply: Reply): State {
    State(s.log + [Replied(b, Answered(reply))], Carry(s.net, [], OnTheWire(ReplyValue(reply))))
  }

  /** The reply, or the refusal signed at boot when handle threw instead of replying. */
  function WithReply(c: Crypto, secret: Str, s: State, b: Binding, r: Option<Reply>): State {
    match (r, Unreadable(c, secret))
    case (Some(reply), _) => Post(s, b, reply)
    case (None, Some(unreadable)) => Post(s, UNROUTED, unreadable)
    case (None, None) => s
  }

  function WithEvent(c: Crypto, secret: Str, s: State, m: Meta, event: Option<Str>): State {
    match (event, EventEnvelope(c, secret, m))
    case (Some(subject), Some(e)) =>
      State(s.log + [Emitted(m)], Carry(s.net, subject, OnTheWire(EnvelopeValue(e))))
    case _ => s
  }

  function MalformedError(text: Str): ErrorBody { ErrorBody(UNTRUSTED, text, Undefined) }

  /** From the handler on: the execution, the event if one is emitted, the reply. */
  function AfterRun(cfg: Config, s: State, step: Step, e: Envelope, route: Route): State
    requires step.Deliver?
  {
    var ran := State(s.log + [Executed(step.service, e, step.message.subject, step.now)], s.net);
    if step.died then ran
    else
      var emitted := if step.ran.Returned? then WithEvent(cfg.c, cfg.secret, ran, e.meta, route.event) else ran;
      var reply := Respond(cfg.c, cfg.secret, e.meta, route, step.ran, step.published);
      WithReply(cfg.c, cfg.secret, emitted, BindingOf(e.meta, reply.Some? && reply.value.Success?), reply)
  }

  /** One delivery to a service. A process that dies after the handler emits nothing and answers nothing. */
  function AfterCheck(cfg: Config, s: State, step: Step, checked: Checked): State
    requires step.Deliver?
  {
    match checked
    case Malformed =>
      WithReply(cfg.c, cfg.secret, s, UNROUTED, Reject(cfg.c, cfg.secret, UNROUTED, MalformedError(step.text)))
    case Refused(m, reason) =>
      WithReply(cfg.c, cfg.secret, s, BindingOf(m, false), RefusalReply(cfg.c, cfg.secret, m, reason, step.text))
    case Admitted(e, route) => AfterRun(cfg, s, step, e, route)
  }

  function AfterDelivery(cfg: Config, s: State, step: Step): State
    requires step.Deliver? && step.service in cfg.services
  {
    AfterCheck(cfg, s, step, Check(cfg.reg, cfg.c, cfg.secret, cfg.services[step.service], step.message.body,
                                   step.message.subject, step.now))
  }

  /** A step that is not possible changes nothing, so every list of steps is a run. */
  ghost function After(cfg: Config, s: State, step: Step): State {
    match step
    case DoDispatch(call) =>
      if call.parsed.Some? && Valid(call.parsed.value) && Dispatch(cfg.reg, cfg.c, cfg.secret, call).Ok? then
        var e := Dispatch(cfg.reg, cfg.c, cfg.secret, call).value;
        State(s.log + [Dispatched(call, e)],
              Carry(s.net, DispatchSubject(cfg.reg, call.resource, call.operation), OnTheWire(EnvelopeValue(e))))
      else s
    case DoInternal(requestId, orgId, resource, operation, issuedAt) =>
      (match InternalEnvelope(cfg.reg, cfg.c, cfg.secret, requestId, orgId, resource, operation, issuedAt)
       case None => s
       case Some(e) =>
         State(s.log + [Internal(requestId, orgId, resource, operation, issuedAt, e)],
               Carry(s.net, RpcSubject(resource, operation), OnTheWire(EnvelopeValue(e)))))
    case Publish(message) =>
      if Valid(message.body) && Unforged(cfg, s.log, message.body) then s.(net := s.net + {message}) else s
    case Deliver(service, message, _, ran, _, _, _) =>
      if service in cfg.services && message in s.net && ValidRan(ran) then AfterDelivery(cfg, s, step) else s
    case DeliverEvent(message) =>
      if message in s.net && CheckEvent(cfg.reg, cfg.c, cfg.secret, message.body, message.subject).Some? then
        s.(log := s.log + [Consumed(CheckEvent(cfg.reg, cfg.c, cfg.secret, message.body, message.subject).value,
                                    message.subject)])
      else s
    case Answer(asked, message) =>
      if message in s.net && AcceptReply(cfg.c, cfg.secret, asked, message.body).Ok? then
        s.(log := s.log + [Accepted(asked, AcceptReply(cfg.c, cfg.secret, asked, message.body).value)])
      else s
  }

  ghost function Run(cfg: Config, steps: seq<Step>): State {
    if steps == [] then State([], {}) else After(cfg, Run(cfg, steps[..|steps| - 1]), steps[|steps| - 1])
  }

  // ---------- what justifies an entry ----------

  /** A request signed by the gateway: a dispatch that passed its gates, or a call on its own behalf. */
  ghost predicate SignedRequest(cfg: Config, e: Entry) {
    || (e.Dispatched? && Valid(e.sent.payload) && Dispatch(cfg.reg, cfg.c, cfg.secret, e.call) == Ok(e.sent))
    || (e.Internal?
        && e.sent.payload == Obj([])
        && InternalEnvelope(cfg.reg, cfg.c, cfg.secret, e.requestId, e.orgId, e.resource, e.operation, e.issuedAt)
           == Some(e.sent))
  }

  ghost predicate SameRequest(e: Entry, x: Envelope) {
    (e.Dispatched? || e.Internal?) && SameMeta(e.sent.meta, x.meta) && Same(e.sent.payload, x.payload)
  }

  /** The service owns the operation, the message came on its own subject, and an rpc came in time. */
  ghost predicate RightfullyRun(cfg: Config, e: Entry)
    requires e.Executed?
  {
    var m := e.envelope.meta;
    exists route | route in Routes(cfg.reg) ::
      && route.resource == m.resource && route.operation == m.operation && route.owner == e.service
      && e.subject == route.subject
      && (route.transport.Rpc? ==> e.now < m.deadlineAt + CLOCK_SKEW_MS)
      && Permission(m.resource, m.operation) in m.permissions
  }

  /** The gateway signed a request with this id, resource and operation. */
  ghost predicate Asked(cfg: Config, log: seq<Entry>, b: Binding) {
    exists j | 0 <= j < |log| :: SignedRequest(cfg, log[j]) && BindingOf(log[j].sent.meta, b.ok) == b
  }

  ghost predicate Justified(cfg: Config, before: seq<Entry>, e: Entry) {
    match e
    case Dispatched(_, _) => SignedRequest(cfg, e)
    case Internal(_, _, _, _, _, _) => SignedRequest(cfg, e)
    case Executed(_, x, _, _) =>
      && RightfullyRun(cfg, e)
      && exists j | 0 <= j < |before| :: SignedRequest(cfg, before[j]) && SameRequest(before[j], x)
    case Emitted(m) => exists j | 0 <= j < |before| :: before[j].Executed? && before[j].envelope.meta == m
    case Replied(b, body) =>
      && Valid(body)
      && (b.ok ==> exists j | 0 <= j < |before| :: before[j].Executed? && BindingOf(before[j].envelope.meta, true) == b)
      && (!b.ok ==> CodeOf(body) == Some(UNTRUSTED) || Asked(cfg, before, b))
    case Consumed(m, subject) =>
      && (exists j | 0 <= j < |before| :: before[j].Emitted? && SameMeta(before[j].meta, m))
      && (exists route | route in Routes(cfg.reg) ::
            route.resource == m.resource && route.operation == m.operation && route.event == Some(subject))
    case Accepted(m, r) =>
      exists j | 0 <= j < |before| ::
        before[j].Replied? && before[j].binding == BindingOf(m, r.Success?) && Same(before[j].body, Answered(r))
  }

  ghost predicate AllJustified(cfg: Config, log: seq<Entry>) {
    forall i {:trigger log[..i]} | 0 <= i < |log| :: Justified(cfg, log[..i], log[i])
  }

  ghost predicate Inv(cfg: Config, s: State) {
    && AllJustified(cfg, s.log)
    && (forall m | m in s.net :: Valid(m.body) && Unforged(cfg, s.log, m.body))
  }

  // ---------- preservation ----------

  lemma UnforgedGrows(cfg: Config, log: seq<Entry>, e: Entry, v: Value)
    requires Unforged(cfg, log, v)
    ensures Unforged(cfg, log + [e], v)
  {
    forall b: Str | SignatureOf(v) == Some(cfg.c.mac(cfg.secret, b)) ensures Signed(cfg, log + [e], b) {
      var i :| 0 <= i < |log| && SignedBytes(cfg, log[i]) == Some(b);
      assert (log + [e])[i] == log[i];
    }
  }

  lemma AppendKeeps(cfg: Config, s: State, e: Entry)
    requires Inv(cfg, s) && Justified(cfg, s.log, e)
    ensures Inv(cfg, s.(log := s.log + [e]))
  {
    var log := s.log + [e];
    forall i | 0 <= i < |log| ensures Justified(cfg, log[..i], log[i]) {
      if i < |s.log| {
        assert log[..i] == s.log[..i];
      } else {
        assert log[..i] == s.log;
      }
    }
    forall m | m in s.net ensures Unforged(cfg, log, m.body) {
      UnforgedGrows(cfg, s.log, e, m.body);
    }
  }

  /** A message whose signature is the MAC of an entry just logged is no forgery. */
  lemma HonestMessage(cfg: Config, s: State, e: Entry, subject: Str, body: Value)
    requires ValidConfig(cfg) && Inv(cfg, s) && Justified(cfg, s.log, e) && Valid(body)
    requires SignedBytes(cfg, e).Some?
    requires SignatureOf(body) == Some(cfg.c.mac(cfg.secret, SignedBytes(cfg, e).value))
    ensures Inv(cfg, State(s.log + [e], s.net + {Message(subject, body)}))
  {
    AppendKeeps(cfg, s, e);
    var log := s.log + [e];
    forall b: Str | SignatureOf(body) == Some(cfg.c.mac(cfg.secret, b)) ensures Signed(cfg, log, b) {
      assert log[|s.log|] == e;
    }
  }

  lemma DispatchKeeps(cfg: Config, s: State, call: Call)
    requires ValidConfig(cfg) && Inv(cfg, s)
    ensures Inv(cfg, After(cfg, s, DoDispatch(call)))
  {
    if call.parsed.Some? && Valid(call.parsed.value) && Dispatch(cfg.reg, cfg.c, cfg.secret, call).Ok? {
      var e := Dispatch(cfg.reg, cfg.c, cfg.secret, call).value;
      SignedBodyIsSignable(cfg.c, cfg.secret, e.meta, e.payload);
      EnvelopeKeepsSignature(e);
      HonestMessage(cfg, s, Dispatched(call, e), DispatchSubject(cfg.reg, call.resource, call.operation),
                    OnTheWire(EnvelopeValue(e)).value);
    }
  }

  lemma InternalKeeps(
    cfg: Config, s: State, requestId: Str, orgId: Str, resource: Str, operation: Str, issuedAt: SafeInt)
    requires ValidConfig(cfg) && Inv(cfg, s)
    ensures Inv(cfg, After(cfg, s, DoInternal(requestId, orgId, resource, operation, issuedAt)))
  {
    match InternalEnvelope(cfg.reg, cfg.c, cfg.secret, requestId, orgId, resource, operation, issuedAt)
    case None =>
    case Some(e) =>
      EnvelopeKeepsSignature(e);
      HonestMessage(cfg, s, Internal(requestId, orgId, resource, operation, issuedAt, e),
                    RpcSubject(resource, operation), OnTheWire(EnvelopeValue(e)).value);
  }

  lemma PostKeeps(cfg: Config, s: State, b: Binding, r: Reply)
    requires ValidConfig(cfg) && Inv(cfg, s)
    requires Valid(Answered(r)) && SignReply(cfg.c, cfg.secret, b, Answered(r)) == Some(r.signature)
    requires Justified(cfg, s.log, Replied(b, Answered(r)))
    ensures Inv(cfg, Post(s, b, r))
  {
    ThrowsExactly(Answered(r));
    ReplyKeepsSignature(r);
    HonestMessage(cfg, s, Replied(b, Answered(r)), [], OnTheWire(ReplyValue(r)).value);
  }

  lemma RejectSigned(c: Crypto, secret: Str, b: Binding, e: ErrorBody)
    requires Valid(e.data) && Reject(c, secret, b, e).Some?
    ensures Valid(Answered(Reject(c, secret, b, e).value))
    ensures SignReply(c, secret, b, Answered(Reject(c, secret, b, e).value))
         == Some(Reject(c, secret, b, e).value.signature)
  {
    ErrorValueValid(e);
  }

  lemma ReplyKeeps(cfg: Config, s: State, b: Binding, r: Option<Reply>)
    requires ValidConfig(cfg) && Inv(cfg, s)
    requires r.Some? ==> Valid(Answered(r.value))
    requires r.Some? ==> SignReply(cfg.c, cfg.secret, b, Answered(r.value)) == Some(r.value.signature)
    requires r.Some? ==> Justified(cfg, s.log, Replied(b, Answered(r.value)))
    ensures Inv(cfg, WithReply(cfg.c, cfg.secret, s, b, r))
  {
    if r.Some? {
      PostKeeps(cfg, s, b, r.value);
    } else if Unreadable(cfg.c, cfg.secret).Some? {
      RejectSigned(cfg.c, cfg.secret, UNROUTED, UNREADABLE_ERROR);
      CodeRead(UNREADABLE_ERROR);
      PostKeeps(cfg, s, UNROUTED, Unreadable(cfg.c, cfg.secret).value);
    }
  }

  lemma EventSigned(cfg: Config, m: Meta, e: Envelope)
    requires EventEnvelope(cfg.c, cfg.secret, m) == Some(e)
    ensures OnTheWire(EnvelopeValue(e)).Some? && Valid(OnTheWire(EnvelopeValue(e)).value)
    ensures SignedBytes(cfg, Emitted(m)).Some?
    ensures SignatureOf(OnTheWire(EnvelopeValue(e)).value)
         == Some(cfg.c.mac(cfg.secret, SignedBytes(cfg, Emitted(m)).value))
  {
    EventBody();
    EnvelopeKeepsSignature(e);
  }

  lemma EventKeeps(cfg: Config, s: State, m: Meta, event: Option<Str>)
    requires ValidConfig(cfg) && Inv(cfg, s) && Justified(cfg, s.log, Emitted(m))
    ensures Inv(cfg, WithEvent(cfg.c, cfg.secret, s, m, event))
  {
    if event.Some? && EventEnvelope(cfg.c, cfg.secret, m).Some? {
      var e := EventEnvelope(cfg.c, cfg.secret, m).value;
      EventSigned(cfg, m, e);
      HonestMessage(cfg, s, Emitted(m), event.value, OnTheWire(EnvelopeValue(e)).value);
    }
  }

  // ---------- a delivery executes only what the gateway signed ----------

  lemma {:induction false} GetValid(fs: seq<Field>, key: Str)
    requires Valid(Obj(fs)) && Get(fs, key).Some?
    ensures Valid(Get(fs, key).value)
  {
    var i := GetFrom(fs, key);
    assert Valid(fs[i].value);
  }

  lemma ParsedPayloadValid(reg: Registry, v: Value)
    requires Valid(v) && ParseEnvelope(reg, v).Some?
    ensures Valid(ParseEnvelope(reg, v).value.payload)
    ensures SignatureOf(v) == Some(ParseEnvelope(reg, v).value.signature)
  {
    if Get(v.fields, ENVELOPE_SHAPE[1]).Some? {
      GetValid(v.fields, ENVELOPE_SHAPE[1]);
    }
  }

  /** An entry that signs the bytes of a request is a request of the gateway's, with the same content. */
  lemma SignsRequest(cfg: Config, before: seq<Entry>, e: Entry, x: Envelope)
    requires ValidConfig(cfg) && Valid(x.payload) && Justified(cfg, before, e)
    requires CanonicalEnvelope(cfg.c, Request, x.meta, x.payload).Some?
    requires SignedBytes(cfg, e) == CanonicalEnvelope(cfg.c, Request, x.meta, x.payload)
    ensures SignedRequest(cfg, e) && SameRequest(e, x)
  {
    match e
    case Dispatched(_, sent) =>
      EnvelopeBytesExactly(cfg.c, Request, sent.meta, sent.payload, Request, x.meta, x.payload);
    case Internal(_, _, _, _, _, sent) =>
      EnvelopeBytesExactly(cfg.c, Request, sent.meta, sent.payload, Request, x.meta, x.payload);
    case Emitted(m) =>
      EventBody();
      EnvelopeBytesExactly(cfg.c, Event, m, EVENT_BODY, Request, x.meta, x.payload);
    case Replied(b, body) => ReplyIsNoEnvelope(cfg.c, Request, x.meta, x.payload, b, body);
    case _ =>
  }

  lemma RequestOrigin(cfg: Config, log: seq<Entry>, x: Envelope) returns (j: nat)
    requires ValidConfig(cfg) && Valid(x.payload) && AllJustified(cfg, log)
    requires CanonicalEnvelope(cfg.c, Request, x.meta, x.payload).Some?
    requires Signed(cfg, log, CanonicalEnvelope(cfg.c, Request, x.meta, x.payload).value)
    ensures j < |log| && SignedRequest(cfg, log[j]) && SameRequest(log[j], x)
  {
    j :| 0 <= j < |log| && SignedBytes(cfg, log[j]) == CanonicalEnvelope(cfg.c, Request, x.meta, x.payload);
    SignsRequest(cfg, log[..j], log[j], x);
  }

  lemma AdmittedRightfully(cfg: Config, service: Str, message: Message, now: int, e: Envelope, route: Route)
    requires ValidConfig(cfg) && service in cfg.services
    requires Check(cfg.reg, cfg.c, cfg.secret, cfg.services[service], message.body, message.subject, now)
          == Admitted(e, route)
    ensures RightfullyRun(cfg, Executed(service, e, message.subject, now))
    ensures ParseEnvelope(cfg.reg, message.body) == Some(e)
    ensures VerifyRequest(cfg.c, cfg.secret, e.meta, e.payload, e.signature)
  {
    AdmittedMeans(cfg.reg, cfg.c, cfg.secret, cfg.services[service], message.body, message.subject, now, e, route);
    BoundRightfully(cfg, service, e.meta, route);
  }

  lemma BoundRightfully(cfg: Config, service: Str, m: Meta, route: Route)
    requires ValidConfig(cfg) && service in cfg.services
    requires FindRoute(cfg.services[service], m.resource, m.operation) == Some(route)
    ensures route in Routes(cfg.reg) && route.owner == service
    ensures route.resource == m.resource && route.operation == m.operation
  {
    var bound := cfg.services[service];
    assert Booted(cfg.reg, service, bound);
    var handlers :| DefineService(cfg.reg, service, handlers) == Ok(bound);
    BootExactly(cfg.reg, service, handlers);
    FindRouteSound(bound, m.resource, m.operation);
    assert route in bound;
  }

  /** A message that verifies as a request is one the gateway signed. */
  lemma VerifiedOrigin(cfg: Config, s: State, message: Message, e: Envelope) returns (j: nat)
    requires ValidConfig(cfg) && Inv(cfg, s) && message in s.net
    requires ParseEnvelope(cfg.reg, message.body) == Some(e)
    requires VerifyRequest(cfg.c, cfg.secret, e.meta, e.payload, e.signature)
    ensures j < |s.log| && SignedRequest(cfg, s.log[j]) && SameRequest(s.log[j], e)
  {
    ParsedPayloadValid(cfg.reg, message.body);
    var bytes := CanonicalEnvelope(cfg.c, Request, e.meta, e.payload).value;
    assert Unforged(cfg, s.log, message.body);
    assert SignatureOf(message.body) == Some(cfg.c.mac(cfg.secret, bytes));
    assert Signed(cfg, s.log, bytes);
    j := RequestOrigin(cfg, s.log, e);
  }

  lemma ExecutionJustified(cfg: Config, s: State, service: Str, message: Message, now: int, e: Envelope, route: Route)
    requires ValidConfig(cfg) && Inv(cfg, s) && service in cfg.services && message in s.net
    requires Check(cfg.reg, cfg.c, cfg.secret, cfg.services[service], message.body, message.subject, now)
          == Admitted(e, route)
    ensures Justified(cfg, s.log, Executed(service, e, message.subject, now))
  {
    AdmittedRightfully(cfg, service, message, now, e, route);
    var j := VerifiedOrigin(cfg, s, message, e);
  }

  lemma SameMetaBinding(m: Meta, n: Meta, ok: bool)
    requires SameMeta(m, n)
    ensures BindingOf(m, ok) == BindingOf(n, ok)
  {
    assert m.(permissions := []) == n.(permissions := []);
  }

  lemma RefusedMeans(cfg: Config, bound: seq<Route>, message: Message, now: int, m: Meta, reason: Reason)
    requires Check(cfg.reg, cfg.c, cfg.secret, bound, message.body, message.subject, now) == Refused(m, reason)
    ensures ParseEnvelope(cfg.reg, message.body).Some? && ParseEnvelope(cfg.reg, message.body).value.meta == m
    ensures var e := ParseEnvelope(cfg.reg, message.body).value;
      reason.BadSignature? <==> !VerifyRequest(cfg.c, cfg.secret, e.meta, e.payload, e.signature)
  {
  }

  /** Every refusal but one for a bad signature answers a request the gateway signed. */
  lemma RefusedAsked(cfg: Config, s: State, bound: seq<Route>, message: Message, now: int, m: Meta, reason: Reason)
    requires ValidConfig(cfg) && Inv(cfg, s) && message in s.net
    requires Check(cfg.reg, cfg.c, cfg.secret, bound, message.body, message.subject, now) == Refused(m, reason)
    ensures ReasonCode(reason) == UNTRUSTED || Asked(cfg, s.log, BindingOf(m, false))
  {
    RefusedMeans(cfg, bound, message, now, m, reason);
    if !reason.BadSignature? {
      var j := VerifiedOrigin(cfg, s, message, ParseEnvelope(cfg.reg, message.body).value);
      SameMetaBinding(s.log[j].sent.meta, m, false);
    }
  }

  lemma RespondSigned(c: Crypto, secret: Str, m: Meta, route: Route, ran: Ran, published: bool)
    requires ValidRan(ran) && Respond(c, secret, m, route, ran, published).Some?
    ensures var r := Respond(c, secret, m, route, ran, published).value;
      Valid(Answered(r)) && SignReply(c, secret, BindingOf(m, r.Success?), Answered(r)) == Some(r.signature)
  {
    var r := Respond(c, secret, m, route, ran, published).value;
    if r.Refusal? {
      RejectSigned(c, secret, BindingOf(m, false), if ran.Coded? then ran.error else INTERNAL_ERROR);
    }
  }

  lemma RejectKeeps(cfg: Config, s: State, b: Binding, error: ErrorBody)
    requires ValidConfig(cfg) && Inv(cfg, s) && !b.ok && Valid(error.data)
    requires error.code == UNTRUSTED || Asked(cfg, s.log, b)
    ensures Inv(cfg, WithReply(cfg.c, cfg.secret, s, b, Reject(cfg.c, cfg.secret, b, error)))
  {
    if Reject(cfg.c, cfg.secret, b, error).Some? {
      RejectSigned(cfg.c, cfg.secret, b, error);
      CodeRead(error);
    }
    ReplyKeeps(cfg, s, b, Reject(cfg.c, cfg.secret, b, error));
  }

  lemma CheckedKeeps(cfg: Config, s: State, step: Step, checked: Checked)
    requires ValidConfig(cfg) && Inv(cfg, s) && step.Deliver? && ValidRan(step.ran)
    requires checked.Admitted? ==>
      Justified(cfg, s.log, Executed(step.service, checked.envelope, step.message.subject, step.now))
    requires checked.Refused? ==>
      ReasonCode(checked.reason) == UNTRUSTED || Asked(cfg, s.log, BindingOf(checked.meta, false))
    ensures Inv(cfg, AfterCheck(cfg, s, step, checked))
  {
    match checked
    case Malformed => RejectKeeps(cfg, s, UNROUTED, MalformedError(step.text));
    case Refused(m, reason) =>
      RejectKeeps(cfg, s, BindingOf(m, false), ErrorBody(ReasonCode(reason), step.text, Undefined));
    case Admitted(e, route) => AdmittedKeeps(cfg, s, step, e, route);
  }

  lemma DeliveryKeeps(cfg: Config, s: State, step: Step)
    requires ValidConfig(cfg) && Inv(cfg, s)
    requires step.Deliver? && step.service in cfg.services && step.message in s.net && ValidRan(step.ran)
    ensures Inv(cfg, AfterDelivery(cfg, s, step))
  {
    var checked := Check(cfg.reg, cfg.c, cfg.secret, cfg.services[step.service], step.message.body,
                         step.message.subject, step.now);
    if checked.Admitted? {
      ExecutionJustified(cfg, s, step.service, step.message, step.now, checked.envelope, checked.route);
    } else if checked.Refused? {
      RefusedAsked(cfg, s, cfg.services[step.service], step.message, step.now, checked.meta, checked.reason);
    }
    CheckedKeeps(cfg, s, step, checked);
  }

  lemma ExecutionAsked(cfg: Config, log: seq<Entry>, k: nat)
    requires AllJustified(cfg, log) && k < |log| && log[k].Executed?
    ensures Asked(cfg, log, BindingOf(log[k].envelope.meta, false))
  {
    var j := ExecutedCause(cfg, log, k);
    SameMetaBinding(log[j].sent.meta, log[k].envelope.meta, false);
  }

  lemma AnsweredKeeps(cfg: Config, s: State, e: Envelope, route: Route, ran: Ran, published: bool, k: nat)
    requires ValidConfig(cfg) && Inv(cfg, s) && ValidRan(ran)
    requires k < |s.log| && s.log[k].Executed? && s.log[k].envelope == e
    ensures var reply := Respond(cfg.c, cfg.secret, e.meta, route, ran, published);
      Inv(cfg, WithReply(cfg.c, cfg.secret, s, BindingOf(e.meta, reply.Some? && reply.value.Success?), reply))
  {
    var reply := Respond(cfg.c, cfg.secret, e.meta, route, ran, published);
    if reply.Some? {
      RespondSigned(cfg.c, cfg.secret, e.meta, route, ran, published);
      ExecutionAsked(cfg, s.log, k);
      assert Justified(cfg, s.log, Replied(BindingOf(e.meta, reply.value.Success?), Answered(reply.value)));
    }
    ReplyKeeps(cfg, s, BindingOf(e.meta, reply.Some? && reply.value.Success?), reply);
  }

  lemma EmittedKeeps(cfg: Config, s: State, e: Envelope, event: Option<Str>, k: nat)
    requires ValidConfig(cfg) && Inv(cfg, s) && k < |s.log| && s.log[k].Executed? && s.log[k].envelope == e
    ensures var t := WithEvent(cfg.c, cfg.secret, s, e.meta, event);
      Inv(cfg, t) && k < |t.log| && t.log[k] == s.log[k]
  {
    assert Justified(cfg, s.log, Emitted(e.meta));
    EventKeeps(cfg, s, e.meta, event);
  }

  lemma AdmittedKeeps(cfg: Config, s: State, step: Step, e: Envelope, route: Route)
    requires ValidConfig(cfg) && Inv(cfg, s) && step.Deliver? && ValidRan(step.ran)
    requires Justified(cfg, s.log, Executed(step.service, e, step.message.subject, step.now))
    ensures Inv(cfg, AfterRun(cfg, s, step, e, route))
  {
    var run := Executed(step.service, e, step.message.subject, step.now);
    AppendKeeps(cfg, s, run);
    var ran := State(s.log + [run], s.net);
    assert ran == s.(log := s.log + [run]) && ran.log[|s.log|] == run;
    if !step.died {
      var emitted := if step.ran.Returned? then WithEvent(cfg.c, cfg.secret, ran, e.meta, route.event) else ran;
      if step.ran.Returned? {
        EmittedKeeps(cfg, ran, e, route.event, |s.log|);
      }
      AnsweredKeeps(cfg, emitted, e, route, step.ran, step.published, |s.log|);
    }
  }

  // ---------- events and replies ----------

  lemma SignsEvent(cfg: Config, before: seq<Entry>, e: Entry, x: Envelope)
    requires ValidConfig(cfg) && Valid(x.payload) && Justified(cfg, before, e)
    requires CanonicalEnvelope(cfg.c, Event, x.meta, x.payload).Some?
    requires SignedBytes(cfg, e) == CanonicalEnvelope(cfg.c, Event, x.meta, x.payload)
    ensures e.Emitted? && SameMeta(e.meta, x.meta)
  {
    match e
    case Dispatched(_, sent) => EnvelopeBytesExactly(cfg.c, Request, sent.meta, sent.payload, Event, x.meta, x.payload);
    case Internal(_, _, _, _, _, sent) =>
      EnvelopeBytesExactly(cfg.c, Request, sent.meta, sent.payload, Event, x.meta, x.payload);
    case Emitted(m) =>
      EventBody();
      EnvelopeBytesExactly(cfg.c, Event, m, EVENT_BODY, Event, x.meta, x.payload);
    case Replied(b, body) => ReplyIsNoEnvelope(cfg.c, Event, x.meta, x.payload, b, body);
    case _ =>
  }

  lemma EventOrigin(cfg: Config, log: seq<Entry>, x: Envelope) returns (j: nat)
    requires ValidConfig(cfg) && Valid(x.payload) && AllJustified(cfg, log)
    requires CanonicalEnvelope(cfg.c, Event, x.meta, x.payload).Some?
    requires Signed(cfg, log, CanonicalEnvelope(cfg.c, Event, x.meta, x.payload).value)
    ensures j < |log| && log[j].Emitted? && SameMeta(log[j].meta, x.meta)
  {
    j :| 0 <= j < |log| && SignedBytes(cfg, log[j]) == CanonicalEnvelope(cfg.c, Event, x.meta, x.payload);
    SignsEvent(cfg, log[..j], log[j], x);
  }

  /** An event message a consumer would accept was emitted by an execution. */
  lemma GenuineEvent(cfg: Config, s: State, message: Message, m: Meta) returns (j: nat)
    requires ValidConfig(cfg) && Inv(cfg, s) && message in s.net
    requires CheckEvent(cfg.reg, cfg.c, cfg.secret, message.body, message.subject) == Some(m)
    ensures j < |s.log| && s.log[j].Emitted? && SameMeta(s.log[j].meta, m)
  {
    var e := ParseEnvelope(cfg.reg, message.body).value;
    ParsedPayloadValid(cfg.reg, message.body);
    var bytes := CanonicalEnvelope(cfg.c, Event, e.meta, e.payload).value;
    assert Unforged(cfg, s.log, message.body);
    assert SignatureOf(message.body) == Some(cfg.c.mac(cfg.secret, bytes));
    assert Signed(cfg, s.log, bytes);
    j := EventOrigin(cfg, s.log, e);
  }

  lemma EventDeliveryKeeps(cfg: Config, s: State, message: Message)
    requires ValidConfig(cfg) && Inv(cfg, s)
    ensures Inv(cfg, After(cfg, s, DeliverEvent(message)))
  {
    var checked := CheckEvent(cfg.reg, cfg.c, cfg.secret, message.body, message.subject);
    if message in s.net && checked.Some? {
      var j := GenuineEvent(cfg, s, message, checked.value);
      FindRouteSound(Routes(cfg.reg), checked.value.resource, checked.value.operation);
      AppendKeeps(cfg, s, Consumed(checked.value, message.subject));
    }
  }

  lemma SignsReply(cfg: Config, before: seq<Entry>, e: Entry, b: Binding, body: Value)
    requires ValidConfig(cfg) && Valid(body) && Justified(cfg, before, e)
    requires CanonicalReply(cfg.c, b, body).Some? && SignedBytes(cfg, e) == CanonicalReply(cfg.c, b, body)
    ensures e.Replied? && e.binding == b && Same(e.body, body)
  {
    match e
    case Dispatched(_, sent) => ReplyIsNoEnvelope(cfg.c, Request, sent.meta, sent.payload, b, body);
    case Internal(_, _, _, _, _, sent) => ReplyIsNoEnvelope(cfg.c, Request, sent.meta, sent.payload, b, body);
    case Emitted(m) => ReplyIsNoEnvelope(cfg.c, Event, m, EVENT_BODY, b, body);
    case Replied(a, data) => ReplyBytesExactly(cfg.c, a, data, b, body);
    case _ =>
  }

  lemma ReplyOrigin(cfg: Config, log: seq<Entry>, b: Binding, body: Value) returns (j: nat)
    requires ValidConfig(cfg) && Valid(body) && AllJustified(cfg, log)
    requires CanonicalReply(cfg.c, b, body).Some? && Signed(cfg, log, CanonicalReply(cfg.c, b, body).value)
    ensures j < |log| && log[j].Replied? && log[j].binding == b && Same(log[j].body, body)
  {
    j :| 0 <= j < |log| && SignedBytes(cfg, log[j]) == CanonicalReply(cfg.c, b, body);
    SignsReply(cfg, log[..j], log[j], b, body);
  }

  lemma ParsedAnswerValid(v: Value)
    requires Valid(v) && ParseReply(v).Some?
    ensures Valid(Answered(ParseReply(v).value))
    ensures SignatureOf(v) == Some(ParseReply(v).value.signature)
  {
    var r := ParseReply(v).value;
    match r
    case Success(_, _, _) =>
      if Get(v.fields, SUCCESS_SHAPE[3]).Some? {
        GetValid(v.fields, SUCCESS_SHAPE[3]);
      }
    case Refusal(_, _, error) =>
      GetValid(v.fields, REFUSAL_SHAPE[3]);
      var inner := Get(v.fields, REFUSAL_SHAPE[3]).value;
      if Get(inner.fields, ERROR_SHAPE[2]).Some? {
        GetValid(inner.fields, ERROR_SHAPE[2]);
      }
      ErrorValueValid(error);
  }

  lemma AnswerKeeps(cfg: Config, s: State, asked: Meta, message: Message)
    requires ValidConfig(cfg) && Inv(cfg, s)
    ensures Inv(cfg, After(cfg, s, Answer(asked, message)))
  {
    if message in s.net && AcceptReply(cfg.c, cfg.secret, asked, message.body).Ok? {
      var r := AcceptReply(cfg.c, cfg.secret, asked, message.body).value;
      ParsedAnswerValid(message.body);
      var b := BindingOf(asked, r.Success?);
      var bytes := CanonicalReply(cfg.c, b, Answered(r)).value;
      assert Unforged(cfg, s.log, message.body);
      assert SignatureOf(message.body) == Some(cfg.c.mac(cfg.secret, bytes));
      assert Signed(cfg, s.log, bytes);
      var j := ReplyOrigin(cfg, s.log, b, Answered(r));
      AppendKeeps(cfg, s, Accepted(asked, r));
    }
  }

  /** Every step keeps every entry justified by what came before it. */
  lemma StepKeeps(cfg: Config, s: State, step: Step)
    requires ValidConfig(cfg) && Inv(cfg, s)
    ensures Inv(cfg, After(cfg, s, step))
  {
    match step
    case DoDispatch(call) => DispatchKeeps(cfg, s, call);
    case DoInternal(requestId, orgId, resource, operation, issuedAt) =>
      InternalKeeps(cfg, s, requestId, orgId, resource, operation, issuedAt);
    case Publish(message) =>
    case Deliver(service, message, now, ran, published, died, text) =>
      if service in cfg.services && message in s.net && ValidRan(ran) {
        DeliveryKeeps(cfg, s, step);
      }
    case DeliverEvent(message) => EventDeliveryKeeps(cfg, s, message);
    case Answer(asked, message) => AnswerKeeps(cfg, s, asked, message);
  }

  lemma {:induction false} RunKeeps(cfg: Config, steps: seq<Step>)
    requires ValidConfig(cfg)
    ensures Inv(cfg, Run(cfg, steps))
  {
    if steps != [] {
      RunKeeps(cfg, steps[..|steps| - 1]);
      StepKeeps(cfg, Run(cfg, steps[..|steps| - 1]), steps[|steps| - 1]);
    }
  }

  // ---------- the cause of each entry ----------

  lemma ExecutedCause(cfg: Config, log: seq<Entry>, i: nat) returns (j: nat)
    requires AllJustified(cfg, log) && i < |log| && log[i].Executed?
    ensures j < i && SignedRequest(cfg, log[j]) && SameRequest(log[j], log[i].envelope)
    ensures RightfullyRun(cfg, log[i])
  {
    assert Justified(cfg, log[..i], log[i]);
    j :| 0 <= j < |log[..i]| && SignedRequest(cfg, log[..i][j]) && SameRequest(log[..i][j], log[i].envelope);
  }

  lemma EmittedCause(cfg: Config, log: seq<Entry>, i: nat) returns (j: nat)
    requires AllJustified(cfg, log) && i < |log| && log[i].Emitted?
    ensures j < i && log[j].Executed? && log[j].envelope.meta == log[i].meta
  {
    assert Justified(cfg, log[..i], log[i]);
    j :| 0 <= j < |log[..i]| && log[..i][j].Executed? && log[..i][j].envelope.meta == log[i].meta;
  }

  lemma ConsumedCause(cfg: Config, log: seq<Entry>, i: nat) returns (j: nat)
    requires AllJustified(cfg, log) && i < |log| && log[i].Consumed?
    ensures j < i && log[j].Emitted? && SameMeta(log[j].meta, log[i].meta)
  {
    assert Justified(cfg, log[..i], log[i]);
    j :| 0 <= j < |log[..i]| && log[..i][j].Emitted? && SameMeta(log[..i][j].meta, log[i].meta);
  }

  lemma AcceptedCause(cfg: Config, log: seq<Entry>, i: nat) returns (j: nat)
    requires AllJustified(cfg, log) && i < |log| && log[i].Accepted?
    ensures j < i && log[j].Replied? && log[j].binding == BindingOf(log[i].meta, log[i].reply.Success?)
    ensures Same(log[j].body, Answered(log[i].reply))
  {
    assert Justified(cfg, log[..i], log[i]);
    j :| 0 <= j < |log[..i]| && log[..i][j].Replied?
         && log[..i][j].binding == BindingOf(log[i].meta, log[i].reply.Success?)
         && Same(log[..i][j].body, Answered(log[i].reply));
  }

  lemma RepliedCause(cfg: Config, log: seq<Entry>, i: nat) returns (j: nat)
    requires AllJustified(cfg, log) && i < |log| && log[i].Replied? && log[i].binding.ok
    ensures j < i && log[j].Executed? && BindingOf(log[j].envelope.meta, true) == log[i].binding
  {
    assert Justified(cfg, log[..i], log[i]);
    j :| 0 <= j < |log[..i]| && log[..i][j].Executed? && BindingOf(log[..i][j].envelope.meta, true) == log[i].binding;
  }

  // ---------- safety of every run ----------

  /**
   * In every run, whatever anyone publishes, copies, delays or delivers twice: each handler execution
   * is preceded by a gateway request with the same meta and payload, runs in the service that owns the
   * operation, on that operation's own subject, and for rpc before the deadline plus the skew.
   */
  lemma ExecutionSafety(cfg: Config, steps: seq<Step>, i: nat)
    requires ValidConfig(cfg) && i < |Run(cfg, steps).log| && Run(cfg, steps).log[i].Executed?
    ensures RightfullyRun(cfg, Run(cfg, steps).log[i])
    ensures exists j | 0 <= j < i ::
      SignedRequest(cfg, Run(cfg, steps).log[j])
      && SameRequest(Run(cfg, steps).log[j], Run(cfg, steps).log[i].envelope)
  {
    RunKeeps(cfg, steps);
    var j := ExecutedCause(cfg, Run(cfg, steps).log, i);
  }

  lemma SignedRoleClears(cfg: Config, e: Entry, m: Meta)
    requires ValidConfig(cfg) && SignedRequest(cfg, e) && SameMeta(e.sent.meta, m)
    requires RuleFor(cfg.reg, m.resource, m.operation).Some?
    ensures RoleAtLeast(m.role, RuleFor(cfg.reg, m.resource, m.operation).value.minRole)
  {
    assert e.sent.meta.(permissions := []) == m.(permissions := []);
    assert e.sent.meta.role == m.role && e.sent.meta.resource == m.resource && e.sent.meta.operation == m.operation;
    if e.Dispatched? {
      DispatchGated(cfg.reg, cfg.c, cfg.secret, e.call);
    }
  }

  lemma RightfulRule(cfg: Config, e: Entry)
    requires ValidConfig(cfg) && e.Executed? && RightfullyRun(cfg, e)
    ensures RuleFor(cfg.reg, e.envelope.meta.resource, e.envelope.meta.operation).Some?
  {
    var m := e.envelope.meta;
    var route :| route in Routes(cfg.reg) && route.resource == m.resource && route.operation == m.operation;
    RoutesAreRows(cfg.reg, route);
  }

  /** Every execution acts for a role that clears the operation's declared minimum: no run escalates. */
  lemma ExecutionAuthorised(cfg: Config, steps: seq<Step>, i: nat)
    requires ValidConfig(cfg) && i < |Run(cfg, steps).log| && Run(cfg, steps).log[i].Executed?
    ensures var m := Run(cfg, steps).log[i].envelope.meta;
      && RuleFor(cfg.reg, m.resource, m.operation).Some?
      && RoleAtLeast(m.role, RuleFor(cfg.reg, m.resource, m.operation).value.minRole)
  {
    RunKeeps(cfg, steps);
    var log := Run(cfg, steps).log;
    var j := ExecutedCause(cfg, log, i);
    RightfulRule(cfg, log[i]);
    SignedRoleClears(cfg, log[j], log[i].envelope.meta);
  }

  /** Somewhere in the log a handler ran on this meta, and before that the gateway signed that request. */
  ghost predicate Commissioned(cfg: Config, log: seq<Entry>, m: Meta) {
    exists j, k | 0 <= j < k < |log| ::
      && SignedRequest(cfg, log[j])
      && log[k].Executed?
      && SameRequest(log[j], log[k].envelope)
      && SameMeta(log[k].envelope.meta, m)
  }

  /** Whatever event lies on the bus of any run, if a consumer would accept it, an execution emitted it. */
  lemma EventsCommissioned(cfg: Config, steps: seq<Step>, message: Message, m: Meta)
    requires ValidConfig(cfg) && message in Run(cfg, steps).net
    requires CheckEvent(cfg.reg, cfg.c, cfg.secret, message.body, message.subject) == Some(m)
    ensures Commissioned(cfg, Run(cfg, steps).log, m)
  {
    RunKeeps(cfg, steps);
    var log := Run(cfg, steps).log;
    var e := GenuineEvent(cfg, Run(cfg, steps), message, m);
    var k := EmittedCause(cfg, log, e);
    var j := ExecutedCause(cfg, log, k);
  }

  /** Every event a consumer acts on was emitted by an execution, which the gateway had signed for. */
  lemma ConsumptionSafety(cfg: Config, steps: seq<Step>, i: nat)
    requires ValidConfig(cfg) && i < |Run(cfg, steps).log| && Run(cfg, steps).log[i].Consumed?
    ensures exists j, k | 0 <= j < k < i ::
      && SignedRequest(cfg, Run(cfg, steps).log[j])
      && Run(cfg, steps).log[k].Executed?
      && SameRequest(Run(cfg, steps).log[j], Run(cfg, steps).log[k].envelope)
      && SameMeta(Run(cfg, steps).log[k].envelope.meta, Run(cfg, steps).log[i].meta)
  {
    RunKeeps(cfg, steps);
    var log := Run(cfg, steps).log;
    var e := ConsumedCause(cfg, log, i);
    var k := EmittedCause(cfg, log, e);
    var j := ExecutedCause(cfg, log, k);
  }

  /** What stands behind a refusal in the log, unless its code is the one anybody can provoke. */
  lemma RefusalCause(cfg: Config, log: seq<Entry>, i: nat)
    requires AllJustified(cfg, log) && i < |log| && log[i].Replied? && !log[i].binding.ok
    ensures CodeOf(log[i].body) == Some(UNTRUSTED) || Asked(cfg, log[..i], log[i].binding)
  {
    assert Justified(cfg, log[..i], log[i]);
  }

  lemma AskedBefore(cfg: Config, log: seq<Entry>, j: nat, i: nat, b: Binding)
    requires j <= i <= |log| && Asked(cfg, log[..j], b)
    ensures Asked(cfg, log[..i], b)
  {
    var k :| 0 <= k < j && SignedRequest(cfg, log[..j][k]) && BindingOf(log[..j][k].sent.meta, b.ok) == b;
    assert log[..i][k] == log[..j][k];
  }

  /**
   * A reply the gateway accepts was signed for that request id, resource, operation and outcome; a
   * successful one follows an execution of a request with that id, resource and operation, and a refusal
   * with any code but UNTRUSTED follows a request the gateway signed with them.
   */
  lemma ReplySafety(cfg: Config, steps: seq<Step>, i: nat)
    requires ValidConfig(cfg) && i < |Run(cfg, steps).log| && Run(cfg, steps).log[i].Accepted?
    ensures exists j | 0 <= j < i ::
      && Run(cfg, steps).log[j].Replied?
      && Run(cfg, steps).log[j].binding
         == BindingOf(Run(cfg, steps).log[i].meta, Run(cfg, steps).log[i].reply.Success?)
      && Same(Run(cfg, steps).log[j].body, Answered(Run(cfg, steps).log[i].reply))
    ensures Run(cfg, steps).log[i].reply.Success? ==>
      exists k | 0 <= k < i ::
        && Run(cfg, steps).log[k].Executed?
        && BindingOf(Run(cfg, steps).log[k].envelope.meta, true) == BindingOf(Run(cfg, steps).log[i].meta, true)
    ensures Run(cfg, steps).log[i].reply.Refusal? && Run(cfg, steps).log[i].reply.error.code != UNTRUSTED ==>
      Asked(cfg, Run(cfg, steps).log[..i], BindingOf(Run(cfg, steps).log[i].meta, false))
  {
    RunKeeps(cfg, steps);
    var log := Run(cfg, steps).log;
    var j := AcceptedCause(cfg, log, i);
    if log[i].reply.Success? {
      var k := RepliedCause(cfg, log, j);
    } else {
      RefusalCause(cfg, log, j);
      SameCode(log[j].body, log[i].reply.error);
      if Asked(cfg, log[..j], log[j].binding) {
        AskedBefore(cfg, log, j, i, log[j].binding);
      }
    }
  }

  // ---------- runs that do happen ----------

  lemma OneStepOn(cfg: Config, steps: seq<Step>, step: Step)
    ensures Run(cfg, steps + [step]) == After(cfg, Run(cfg, steps), step)
  {
    assert (steps + [step])[..|steps|] == steps;
  }

  lemma PublishOn(cfg: Config, steps: seq<Step>, message: Message)
    requires Valid(message.body) && Unforged(cfg, Run(cfg, steps).log, message.body)
    ensures Run(cfg, steps + [Publish(message)]) == State(Run(cfg, steps).log, Run(cfg, steps).net + {message})
  {
    OneStepOn(cfg, steps, Publish(message));
  }

  lemma AnswerOn(cfg: Config, steps: seq<Step>, asked: Meta, message: Message, r: Reply)
    requires message in Run(cfg, steps).net && AcceptReply(cfg.c, cfg.secret, asked, message.body) == Ok(r)
    ensures Run(cfg, steps + [Answer(asked, message)]).log == Run(cfg, steps).log + [Accepted(asked, r)]
  {
    OneStepOn(cfg, steps, Answer(asked, message));
  }

  lemma DeliverOn(cfg: Config, steps: seq<Step>, step: Step, checked: Checked)
    requires step.Deliver? && step.service in cfg.services && step.message in Run(cfg, steps).net && ValidRan(step.ran)
    requires Check(cfg.reg, cfg.c, cfg.secret, cfg.services[step.service], step.message.body, step.message.subject,
                   step.now) == checked
    ensures Run(cfg, steps + [step]) == AfterCheck(cfg, Run(cfg, steps), step, checked)
  {
    OneStepOn(cfg, steps, step);
  }

  /** A message with a signature that is nobody's MAC is refused at the signature by every service. */
  lemma ForgeryRefused(
    cfg: Config, bound: seq<Route>, m: Meta, payload: Value, signature: Str, subject: Str, now: int)
    requires Acceptable(cfg.reg, m) && |signature| >= 16 && Valid(payload) && !Unsignable(payload)
    requires forall b: Str :: signature != cfg.c.mac(cfg.secret, b)
    ensures OnTheWire(EnvelopeValue(Envelope(m, payload, signature))).Some?
    ensures var body := OnTheWire(EnvelopeValue(Envelope(m, payload, signature))).value;
      && Valid(body) && SignatureOf(body) == Some(signature)
      && Check(cfg.reg, cfg.c, cfg.secret, bound, body, subject, now) == Refused(m, BadSignature)
  {
    EnvelopeOverTheWire(cfg.reg, Envelope(m, payload, signature));
    EnvelopeKeepsSignature(Envelope(m, payload, signature));
  }

  lemma RefusalPosted(cfg: Config, s: State, m: Meta, reason: Reason, text: Str) returns (r: Reply, answer: Message)
    requires Ideal(cfg.c) && m.requestId != []
    ensures var t := WithReply(cfg.c, cfg.secret, s, BindingOf(m, false),
                               RefusalReply(cfg.c, cfg.secret, m, reason, text));
      && r.Refusal? && r.error == ErrorBody(ReasonCode(reason), text, Undefined)
      && t.log == s.log + [Replied(BindingOf(m, false), Answered(r))] && answer in t.net
    ensures AcceptReply(cfg.c, cfg.secret, m, answer.body) == Ok(r)
  {
    RefusalAccepted(cfg.c, cfg.secret, m, reason, text);
    r := RefusalReply(cfg.c, cfg.secret, m, reason, text).value;
    answer := Message([], OnTheWire(ReplyValue(r)).value);
  }

  lemma RefusalOn(cfg: Config, steps: seq<Step>, step: Step, m: Meta, reason: Reason)
    returns (r: Reply, answer: Message)
    requires Ideal(cfg.c) && m.requestId != []
    requires step.Deliver? && step.service in cfg.services && step.message in Run(cfg, steps).net && ValidRan(step.ran)
    requires Check(cfg.reg, cfg.c, cfg.secret, cfg.services[step.service], step.message.body, step.message.subject,
                   step.now) == Refused(m, reason)
    ensures r.Refusal? && r.error.code == ReasonCode(reason)
    ensures Run(cfg, steps + [step]).log == Run(cfg, steps).log + [Replied(BindingOf(m, false), Answered(r))]
    ensures answer in Run(cfg, steps + [step]).net && AcceptReply(cfg.c, cfg.secret, m, answer.body) == Ok(r)
  {
    DeliverOn(cfg, steps, step, Refused(m, reason));
    r, answer := RefusalPosted(cfg, Run(cfg, steps), m, reason, step.text);
  }

  lemma ForgeryOn(cfg: Config, steps: seq<Step>, m: Meta, payload: Value, signature: Str, subject: Str)
    returns (message: Message)
    requires Acceptable(cfg.reg, m) && |signature| >= 16 && Valid(payload) && !Unsignable(payload)
    requires forall b: Str :: signature != cfg.c.mac(cfg.secret, b)
    ensures message.subject == subject
    ensures Run(cfg, steps + [Publish(message)]) == State(Run(cfg, steps).log, Run(cfg, steps).net + {message})
    ensures forall bound, now ::
      Check(cfg.reg, cfg.c, cfg.secret, bound, message.body, subject, now) == Refused(m, BadSignature)
  {
    ForgeryRefused(cfg, [], m, payload, signature, subject, 0);
    message := Message(subject, OnTheWire(EnvelopeValue(Envelope(m, payload, signature))).value);
    forall bound, now
      ensures Check(cfg.reg, cfg.c, cfg.secret, bound, message.body, subject, now) == Refused(m, BadSignature)
    {
      ForgeryRefused(cfg, bound, m, payload, signature, subject, now);
    }
    PublishOn(cfg, steps, message);
  }

  /**
   * A refusal with that code is anybody's to provoke: in any run, for any meta the schema accepts and
   * any signature that is no MAC of the secret, publishing it to any service has the refusal signed and
   * accepted, though nobody signed such a request.
   */
  lemma ForgedRefusal(
    cfg: Config, steps: seq<Step>, service: Str, m: Meta, payload: Value, signature: Str, subject: Str, now: int,
    text: Str)
    returns (a: Step, b: Step, c: Step, r: Reply)
    requires ValidConfig(cfg) && service in cfg.services && Acceptable(cfg.reg, m)
    requires |signature| >= 16 && Valid(payload) && !Unsignable(payload)
    requires forall b: Str :: signature != cfg.c.mac(cfg.secret, b)
    ensures a.Publish? && b.Deliver? && c.Answer? && r.Refusal? && r.error.code == UNTRUSTED
    ensures Run(cfg, steps + [a] + [b] + [c]).log
         == Run(cfg, steps).log + [Replied(BindingOf(m, false), Answered(r))] + [Accepted(m, r)]
  {
    var message := ForgeryOn(cfg, steps, m, payload, signature, subject);
    a := Publish(message);
    b := Deliver(service, message, now, Crashed, false, false, text);
    var answer: Message;
    r, answer := RefusalOn(cfg, steps + [a], b, m, BadSignature);
    c := Answer(m, answer);
    AnswerOn(cfg, steps + [a] + [b], m, answer, r);
  }

  /** The owner runs, the schemas have what they ask for, and the clocks agree to the skew. */
  ghost predicate Deliverable(cfg: Config, call: Call, now: int) {
    && Dispatch(cfg.reg, cfg.c, cfg.secret, call).Ok?
    && |call.requestId| >= 8 && call.identity.value.userId != [] && call.entitlements.plan in cfg.reg.plans
    && Valid(call.parsed.value) && KeepsOrDropsRole(call.input, call.parsed.value)
    && FindResource(cfg.reg.resources, call.resource).Some?
    && FindResource(cfg.reg.resources, call.resource).value.owner in cfg.services
    && var rule := RuleFor(cfg.reg, call.resource, call.operation).value;
       && rule.timeoutMs > 0 && SafeInteger(call.issuedAt + rule.timeoutMs)
       && call.issuedAt <= now + CLOCK_SKEW_MS
       && (rule.transport.Rpc? ==> now < call.issuedAt + rule.timeoutMs + CLOCK_SKEW_MS)
  }

  lemma DispatchedArrives(cfg: Config, call: Call, now: int)
    requires ValidConfig(cfg) && Deliverable(cfg, call, now)
    ensures var e := Dispatch(cfg.reg, cfg.c, cfg.secret, call).value;
      var owner := FindResource(cfg.reg.resources, call.resource).value.owner;
      && OnTheWire(EnvelopeValue(e)).Some? && FindRoute(Routes(cfg.reg), call.resource, call.operation).Some?
      && Check(cfg.reg, cfg.c, cfg.secret, cfg.services[owner], OnTheWire(EnvelopeValue(e)).value,
               DispatchSubject(cfg.reg, call.resource, call.operation), now)
         == Admitted(e.(payload := Project(e.payload)),
                     FindRoute(Routes(cfg.reg), call.resource, call.operation).value)
  {
    var owner := FindResource(cfg.reg.resources, call.resource).value.owner;
    assert Booted(cfg.reg, owner, cfg.services[owner]);
    var handlers :| DefineService(cfg.reg, owner, handlers) == Ok(cfg.services[owner]);
    HandshakeComplete(cfg.reg, cfg.c, cfg.secret, call, handlers, now);
  }

  lemma DispatchOn(cfg: Config, steps: seq<Step>, call: Call, e: Envelope, body: Value)
    requires call.parsed.Some? && Valid(call.parsed.value) && Dispatch(cfg.reg, cfg.c, cfg.secret, call) == Ok(e)
    requires OnTheWire(EnvelopeValue(e)) == Some(body)
    ensures var t := Run(cfg, steps + [DoDispatch(call)]);
      && t.log == Run(cfg, steps).log + [Dispatched(call, e)]
      && Message(DispatchSubject(cfg.reg, call.resource, call.operation), body) in t.net
  {
    OneStepOn(cfg, steps, DoDispatch(call));
  }

  /** What a process that lives leaves behind: the execution first, and the reply on the bus. */
  lemma AfterRunLeaves(cfg: Config, s: State, step: Step, e: Envelope, route: Route, r: Reply, body: Value)
    requires step.Deliver? && !step.died
    requires Respond(cfg.c, cfg.secret, e.meta, route, step.ran, step.published) == Some(r)
    requires OnTheWire(ReplyValue(r)) == Some(body)
    ensures var t := AfterRun(cfg, s, step, e, route);
      && s.log + [Executed(step.service, e, step.message.subject, step.now)] <= t.log
      && Message([], body) in t.net
  {
  }

  lemma ServedOn(cfg: Config, steps: seq<Step>, step: Step, e: Envelope, route: Route, r: Reply, body: Value)
    requires step.Deliver? && step.service in cfg.services && step.message in Run(cfg, steps).net && ValidRan(step.ran)
    requires Check(cfg.reg, cfg.c, cfg.secret, cfg.services[step.service], step.message.body, step.message.subject,
                   step.now) == Admitted(e, route)
    requires !step.died && Respond(cfg.c, cfg.secret, e.meta, route, step.ran, step.published) == Some(r)
    requires OnTheWire(ReplyValue(r)) == Some(body)
    ensures var t := Run(cfg, steps + [step]);
      && Run(cfg, steps).log + [Executed(step.service, e, step.message.subject, step.now)] <= t.log
      && Message([], body) in t.net
  {
    DeliverOn(cfg, steps, step, Admitted(e, route));
    AfterRunLeaves(cfg, Run(cfg, steps), step, e, route, r, body);
  }

  lemma EventLeft(cfg: Config, s: State, step: Step, e: Envelope, route: Route, event: Envelope, body: Value)
    requires step.Deliver? && !step.died && step.ran.Returned? && route.event.Some?
    requires EventEnvelope(cfg.c, cfg.secret, e.meta) == Some(event) && OnTheWire(EnvelopeValue(event)) == Some(body)
    ensures Message(route.event.value, body) in AfterRun(cfg, s, step, e, route).net
  {
  }

  lemma EventWritten(cfg: Config, m: Meta, route: Route) returns (event: Envelope, body: Value)
    requires Ideal(cfg.c) && Acceptable(cfg.reg, m) && route.event.Some?
    requires FindRoute(Routes(cfg.reg), m.resource, m.operation) == Some(route)
    ensures EventEnvelope(cfg.c, cfg.secret, m) == Some(event) && OnTheWire(EnvelopeValue(event)) == Some(body)
    ensures CheckEvent(cfg.reg, cfg.c, cfg.secret, body, route.event.value) == Some(m)
  {
    EventComplete(cfg.reg, cfg.c, cfg.secret, m, route);
    event := EventEnvelope(cfg.c, cfg.secret, m).value;
    body := OnTheWire(EnvelopeValue(event)).value;
  }

  /** A delivery whose handler returns puts an event on the bus that every consumer accepts. */
  lemma EventOn(cfg: Config, steps: seq<Step>, step: Step, e: Envelope, route: Route) returns (message: Message)
    requires Ideal(cfg.c) && step.Deliver? && step.service in cfg.services && step.message in Run(cfg, steps).net
    requires ValidRan(step.ran) && !step.died && step.ran.Returned?
    requires Check(cfg.reg, cfg.c, cfg.secret, cfg.services[step.service], step.message.body, step.message.subject,
                   step.now) == Admitted(e, route)
    requires Acceptable(cfg.reg, e.meta) && route.event.Some?
    requires FindRoute(Routes(cfg.reg), e.meta.resource, e.meta.operation) == Some(route)
    ensures message in Run(cfg, steps + [step]).net && message.subject == route.event.value
    ensures CheckEvent(cfg.reg, cfg.c, cfg.secret, message.body, message.subject) == Some(e.meta)
  {
    DeliverOn(cfg, steps, step, Admitted(e, route));
    var event, body := EventWritten(cfg, e.meta, route);
    EventLeft(cfg, Run(cfg, steps), step, e, route, event, body);
    message := Message(route.event.value, body);
  }

  lemma DispatchedAcceptable(cfg: Config, call: Call, now: int)
    requires ValidConfig(cfg) && Deliverable(cfg, call, now)
    ensures Acceptable(cfg.reg, Dispatch(cfg.reg, cfg.c, cfg.secret, call).value.meta)
    ensures var m := Dispatch(cfg.reg, cfg.c, cfg.secret, call).value.meta;
      m.resource == call.resource && m.operation == call.operation
  {
    DispatchMeans(cfg.reg, cfg.c, cfg.secret, call);
    RuleOperation(cfg.reg, call.resource, call.operation);
  }

  /** What the gateway is to receive after each ending of a handler. */
  ghost predicate Settles(route: Route, ran: Ran, published: bool, requestId: Str, r: Reply) {
    && r.requestId == requestId
    && match ran
       case Returned(data) =>
         if (route.event.Some? && !published) || Unsignable(data) then r.Refusal? && r.error.code == Lit("INTERNAL")
         else r.Success? && r.data == Project(data)
       case Coded(error) =>
         && r.Refusal? && r.error.code == error.code && r.error.message == error.message
         && r.error.data == if error.data.Undefined? then Undefined else Project(error.data)
       case Crashed => r.Refusal? && r.error.code == Lit("INTERNAL") && r.error.data.Undefined?
  }

  /** The answer to each ending of a handler, and that the gateway takes it. */
  lemma EndingAnswer(c: Crypto, secret: Str, m: Meta, route: Route, ran: Ran, published: bool)
    returns (r: Reply, body: Value)
    requires Ideal(c) && m.requestId != [] && ValidRan(ran)
    requires ran.Coded? ==> ran.error.data.Undefined? || !Unsignable(ran.error.data)
    ensures Respond(c, secret, m, route, ran, published) == Some(r)
    ensures OnTheWire(ReplyValue(r)) == Some(body) && AcceptReply(c, secret, m, body) == Ok(Received(r))
    ensures Settles(route, ran, published, m.requestId, Received(r))
  {
    ReplyAgreement(c, secret, m, route, ran, published);
    if ran.Returned? {
      RefusedAfterReturn(c, secret, m, route, ran.data, published);
    }
    r := Respond(c, secret, m, route, ran, published).value;
    body := OnTheWire(ReplyValue(r)).value;
  }

  lemma DispatchedMeta(cfg: Config, call: Call)
    requires Dispatch(cfg.reg, cfg.c, cfg.secret, call).Ok?
    ensures call.parsed.Some?
    ensures Dispatch(cfg.reg, cfg.c, cfg.secret, call).value.meta.requestId == call.requestId
  {
    DispatchMeans(cfg.reg, cfg.c, cfg.secret, call);
  }

  predicate Ends(log: seq<Entry>, e: Entry) { log != [] && log[|log| - 1] == e }

  /** A request on the bus that its owner admits: the delivery of it, and the answer that comes back. */
  lemma ServedTrip(cfg: Config, steps: seq<Step>, b: Step, e: Envelope, route: Route) returns (body: Value, r: Reply)
    requires Ideal(cfg.c) && b.Deliver? && b.service in cfg.services && b.message in Run(cfg, steps).net
    requires ValidRan(b.ran) && !b.died && e.meta.requestId != []
    requires b.ran.Coded? ==> b.ran.error.data.Undefined? || !Unsignable(b.ran.error.data)
    requires Check(cfg.reg, cfg.c, cfg.secret, cfg.services[b.service], b.message.body, b.message.subject, b.now)
          == Admitted(e, route)
    ensures Settles(route, b.ran, b.published, e.meta.requestId, r)
    ensures AcceptReply(cfg.c, cfg.secret, e.meta, body) == Ok(r)
    ensures var t := Run(cfg, steps + [b]);
      && Run(cfg, steps).log + [Executed(b.service, e, b.message.subject, b.now)] <= t.log
      && Message([], body) in t.net
  {
    var reply: Reply;
    reply, body := EndingAnswer(cfg.c, cfg.secret, e.meta, route, b.ran, b.published);
    ServedOn(cfg, steps, b, e, route, reply, body);
    r := Received(reply);
  }

  lemma AnswerEnds(cfg: Config, steps: seq<Step>, asked: Meta, message: Message, r: Reply, before: seq<Entry>)
    requires message in Run(cfg, steps).net && AcceptReply(cfg.c, cfg.secret, asked, message.body) == Ok(r)
    requires before <= Run(cfg, steps).log
    ensures before <= Run(cfg, steps + [Answer(asked, message)]).log
    ensures Ends(Run(cfg, steps + [Answer(asked, message)]).log, Accepted(asked, r))
  {
    AnswerOn(cfg, steps, asked, message, r);
  }

  /**
   * Every run can be continued by a whole round trip: dispatched, the call is run by the owner on the
   * payload's JSON image, and the answer is accepted. It carries what the handler returned or the coded
   * error it threw; it is an internal error when the handler threw anything else, when the publish of its
   * event failed and when its output cannot be signed.
   */
  lemma RoundTrip(cfg: Config, steps: seq<Step>, call: Call, ran: Ran, published: bool, now: int, text: Str)
    returns (e: Envelope, route: Route, b: Step, c: Step, r: Reply)
    requires ValidConfig(cfg) && Deliverable(cfg, call, now) && ValidRan(ran)
    requires ran.Coded? ==> ran.error.data.Undefined? || !Unsignable(ran.error.data)
    ensures Dispatch(cfg.reg, cfg.c, cfg.secret, call) == Ok(e) && b.Deliver? && c.Answer?
    ensures b.service == FindResource(cfg.reg.resources, call.resource).value.owner
    ensures FindRoute(Routes(cfg.reg), call.resource, call.operation) == Some(route)
    ensures var log := Run(cfg, steps + [DoDispatch(call)] + [b] + [c]).log;
      && Run(cfg, steps).log + [Dispatched(call, e)]
         + [Executed(b.service, e.(payload := Project(e.payload)), b.message.subject, now)] <= log
      && Ends(log, Accepted(e.meta, r))
    ensures Settles(route, ran, published, call.requestId, r)
  {
    var body: Value;
    e, route, body := Departed(cfg, steps, call, now);
    b := Deliver(FindResource(cfg.reg.resources, call.resource).value.owner,
                 Message(DispatchSubject(cfg.reg, call.resource, call.operation), body), now, ran, published, false,
                 text);
    var arrived := e.(payload := Project(e.payload));
    assert arrived.meta == e.meta;
    body, r := ServedTrip(cfg, steps + [DoDispatch(call)], b, arrived, route);
    c := Answer(e.meta, Message([], body));
    AnswerEnds(cfg, steps + [DoDispatch(call)] + [b], e.meta, Message([], body), r,
               Run(cfg, steps + [DoDispatch(call)]).log + [Executed(b.service, arrived, b.message.subject, now)]);
  }

  /** The first leg: the request is on the bus, and its owner would admit it. */
  lemma Departed(cfg: Config, steps: seq<Step>, call: Call, now: int) returns (e: Envelope, route: Route, body: Value)
    requires ValidConfig(cfg) && Deliverable(cfg, call, now)
    ensures Dispatch(cfg.reg, cfg.c, cfg.secret, call) == Ok(e) && e.meta.requestId == call.requestId != []
    ensures FindRoute(Routes(cfg.reg), call.resource, call.operation) == Some(route)
    ensures Acceptable(cfg.reg, e.meta) && e.meta.resource == call.resource && e.meta.operation == call.operation
    ensures var t := Run(cfg, steps + [DoDispatch(call)]);
      && t.log == Run(cfg, steps).log + [Dispatched(call, e)]
      && Message(DispatchSubject(cfg.reg, call.resource, call.operation), body) in t.net
    ensures Check(cfg.reg, cfg.c, cfg.secret,
                  cfg.services[FindResource(cfg.reg.resources, call.resource).value.owner], body,
                  DispatchSubject(cfg.reg, call.resource, call.operation), now)
         == Admitted(e.(payload := Project(e.payload)), route)
  {
    DispatchedArrives(cfg, call, now);
    DispatchedMeta(cfg, call);
    DispatchedAcceptable(cfg, call, now);
    e := Dispatch(cfg.reg, cfg.c, cfg.secret, call).value;
    route := FindRoute(Routes(cfg.reg), call.resource, call.operation).value;
    body := OnTheWire(EnvelopeValue(e)).value;
    DispatchOn(cfg, steps, call, e, body);
  }

  /** An audited call whose handler returns leaves its event on the bus, and every consumer accepts it. */
  lemma EventFollows(cfg: Config, steps: seq<Step>, call: Call, data: Value, published: bool, now: int, text: Str)
    returns (e: Envelope, b: Step, message: Message)
    requires ValidConfig(cfg) && Deliverable(cfg, call, now) && Valid(data)
    requires RuleFor(cfg.reg, call.resource, call.operation).value.audit
    ensures Dispatch(cfg.reg, cfg.c, cfg.secret, call) == Ok(e) && b.Deliver? && b.ran == Returned(data)
    ensures message in Run(cfg, steps + [DoDispatch(call)] + [b]).net
    ensures message.subject == Lit("evt.") + call.resource + Lit(".") + call.operation
    ensures CheckEvent(cfg.reg, cfg.c, cfg.secret, message.body, message.subject) == Some(e.meta)
  {
    var route: Route;
    var body: Value;
    e, route, body := Departed(cfg, steps, call, now);
    FindRouteExactly(cfg.reg, call.resource, call.operation);
    b := Deliver(FindResource(cfg.reg.resources, call.resource).value.owner,
                 Message(DispatchSubject(cfg.reg, call.resource, call.operation), body), now, Returned(data), published,
                 false, text);
    message := EventOn(cfg, steps + [DoDispatch(call)], b, e.(payload := Project(e.payload)), route);
  }

  predicate IsRequest(e: Entry) { e.Dispatched? || e.Internal? }

  /**
   * It need not be the request asked: in any run, a reply accepted for one request is accepted for any
   * other with its request id, resource and operation, though no handler ran for that one's organisation.
   */
  lemma SharedReply(cfg: Config, steps: seq<Step>, message: Message, m: Meta, n: Meta)
    requires ValidConfig(cfg) && message in Run(cfg, steps).net
    requires AcceptReply(cfg.c, cfg.secret, m, message.body).Ok? && BindingOf(m, true) == BindingOf(n, true)
    requires forall e <- Run(cfg, steps).log | e.Executed? :: e.envelope.meta.orgId != n.orgId
    ensures var log := Run(cfg, steps + [Answer(n, message)]).log;
      && log == Run(cfg, steps).log + [Accepted(n, AcceptReply(cfg.c, cfg.secret, m, message.body).value)]
      && forall e <- log | e.Executed? :: !SameMeta(e.envelope.meta, n)
  {
    RunKeeps(cfg, steps);
    ParsedAnswerValid(message.body);
    AcceptedForExactly(cfg.c, cfg.secret, m, n, message.body);
    var r := AcceptReply(cfg.c, cfg.secret, m, message.body).value;
    AnswerOn(cfg, steps, n, message, r);
    forall e <- Run(cfg, steps).log + [Accepted(n, r)] | e.Executed? ensures !SameMeta(e.envelope.meta, n) {
      OtherOrganization(e.envelope.meta, n);
    }
  }

  lemma OtherOrganization(m: Meta, n: Meta)
    ensures m.orgId != n.orgId ==> !SameMeta(m, n)
  {
    assert m.orgId == m.(permissions := []).orgId && n.orgId == n.(permissions := []).orgId;
  }

  /** No other request was signed with the request id, resource and operation of the one at `asked`. */
  ghost predicate Alone(log: seq<Entry>, asked: nat)
    requires asked < |log| && IsRequest(log[asked])
  {
    forall j | 0 <= j < |log| && IsRequest(log[j])
               && BindingOf(log[j].sent.meta, true) == BindingOf(log[asked].sent.meta, true) :: j == asked
  }

  /** Where a request is alone in that, an accepted success does follow an execution of that very request. */
  lemma ReplySettles(cfg: Config, steps: seq<Step>, i: nat, asked: nat)
    requires ValidConfig(cfg)
    requires i < |Run(cfg, steps).log| && Run(cfg, steps).log[i].Accepted? && Run(cfg, steps).log[i].reply.Success?
    requires asked < |Run(cfg, steps).log| && IsRequest(Run(cfg, steps).log[asked])
    requires Run(cfg, steps).log[asked].sent.meta == Run(cfg, steps).log[i].meta && Alone(Run(cfg, steps).log, asked)
    ensures exists k | asked < k < i ::
      Run(cfg, steps).log[k].Executed? && SameRequest(Run(cfg, steps).log[asked], Run(cfg, steps).log[k].envelope)
  {
    RunKeeps(cfg, steps);
    var log := Run(cfg, steps).log;
    var r := AcceptedCause(cfg, log, i);
    var k := RepliedCause(cfg, log, r);
    var j := ExecutedCause(cfg, log, k);
    SameMetaBinding(log[j].sent.meta, log[k].envelope.meta, true);
    assert j == asked;
  }
}
