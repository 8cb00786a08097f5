/** Who answers what: the boot checks of a service, and the bus permissions generated for it. */
module Wiring {
  import opened Prelude
  import opened Registry

  // ---------- defineService ----------

  datatype Handler = Handler(resource: Str, operation: Str)

  datatype BootError = Undeclared(h: Handler) | NotOwned(h: Handler, owner: Str) | Unimplemented(missing: seq<Route>)

  /** One route per handler, in handler order; the first handler that has none stops the boot. */
  function Bind(routes: seq<Route>, service: Str, handlers: seq<Handler>): Result<seq<Route>, BootError> {
    if handlers == [] then Ok([])
    else
      match FindRoute(routes, handlers[0].resource, handlers[0].operation)
      case None => Err(Undeclared(handlers[0]))
      case Some(t) =>
        if t.owner != service then Err(NotOwned(handlers[0], t.owner))
        else
          match Bind(routes, service, handlers[1..])
          case Err(e) => Err(e)
          case Ok(ts) => Ok([t] + ts)
  }

  predicate Bound(bound: seq<Route>, t: Route) {
    exists i | 0 <= i < |bound| :: bound[i].resource == t.resource && bound[i].operation == t.operation
  }

  function Missing(routes: seq<Route>, service: Str, bound: seq<Route>): seq<Route> {
    if routes == [] then []
    else (if routes[0].owner == service && !Bound(bound, routes[0]) then [routes[0]] else [])
         + Missing(routes[1..], service, bound)
  }

  function DefineService(reg: Registry, service: Str, handlers: seq<Handler>): Result<seq<Route>, BootError> {
    match Bind(Routes(reg), service, handlers)
    case Err(e) => Err(e)
    case Ok(bound) =>
      var missing := Missing(Routes(reg), service, bound);
      if missing != [] then Err(Unimplemented(missing)) else Ok(bound)
  }

  predicate Owns(reg: Registry, service: Str, h: Handler) {
    var t := FindRoute(Routes(reg), h.resource, h.operation);
    t.Some? && t.value.owner == service
  }

  lemma {:induction false} BindExactly(reg: Registry, service: Str, handlers: seq<Handler>)
    requires ValidRegistry(reg)
    ensures Bind(Routes(reg), service, handlers).Ok? <==> forall h | h in handlers :: Owns(reg, service, h)
    ensures Bind(Routes(reg), service, handlers).Ok? ==>
      forall t :: t in Bind(Routes(reg), service, handlers).value
        <==> t in Routes(reg) && t.owner == service && Handler(t.resource, t.operation) in handlers
  {
    if handlers != [] {
      var h := handlers[0];
      BindExactly(reg, service, handlers[1..]);
      assert handlers == [h] + handlers[1..];
      assert (forall x | x in handlers :: Owns(reg, service, x))
        <==> Owns(reg, service, h) && forall x | x in handlers[1..] :: Owns(reg, service, x);
      FindRouteSound(Routes(reg), h.resource, h.operation);
      forall t | t in Routes(reg) && t.resource == h.resource && t.operation == h.operation
        ensures FindRoute(Routes(reg), h.resource, h.operation) == Some(t)
      {
        RoutesAreRows(reg, t);
        FindRouteExactly(reg, h.resource, h.operation);
      }
    }
  }

  lemma {:induction false} MissingExactly(routes: seq<Route>, service: Str, bound: seq<Route>)
    ensures Missing(routes, service, bound) == [] <==> forall t | t in routes && t.owner == service :: Bound(bound, t)
  {
    if routes != [] {
      MissingExactly(routes[1..], service, bound);
      assert routes == [routes[0]] + routes[1..];
    }
  }

  /**
   * A service boots exactly when it handles only declared operations it owns and every operation
   * it owns; it then serves precisely the routes the registry gives it.
   */
  lemma BootExactly(reg: Registry, service: Str, handlers: seq<Handler>)
    requires ValidRegistry(reg)
    ensures DefineService(reg, service, handlers).Ok? <==>
      (forall h | h in handlers :: Owns(reg, service, h))
      && (forall t | t in Routes(reg) && t.owner == service :: Handler(t.resource, t.operation) in handlers)
    ensures DefineService(reg, service, handlers).Ok? ==>
      forall t :: t in DefineService(reg, service, handlers).value <==> t in Routes(reg) && t.owner == service
  {
    BindExactly(reg, service, handlers);
    if Bind(Routes(reg), service, handlers).Ok? {
      var bound := Bind(Routes(reg), service, handlers).value;
      MissingExactly(Routes(reg), service, bound);
      forall t | t in Routes(reg) && t.owner == service
        ensures Bound(bound, t) <==> Handler(t.resource, t.operation) in handlers
      {
        if Bound(bound, t) {
          var i :| 0 <= i < |bound| && bound[i].resource == t.resource && bound[i].operation == t.operation;
          assert bound[i] in bound;
        }
        if Handler(t.resource, t.operation) in handlers {
          assert t in bound;
        }
      }
    }
  }

  /** When every service boots, each route is served by its owner and by nobody else. */
  lemma RoutingPartition(reg: Registry, handlers: map<Str, seq<Handler>>, t: Route, service: Str)
    requires ValidRegistry(reg) && t in Routes(reg)
    requires forall s | s in reg.services :: s in handlers && DefineService(reg, s, handlers[s]).Ok?
    requires service in reg.services
    ensures t in DefineService(reg, service, handlers[service]).value <==> service == t.owner
    ensures t.owner in reg.services
  {
    BootExactly(reg, service, handlers[service]);
    RouteNames(reg, t);
  }

  // ---------- bus permissions ----------

  datatype Stream = Stream(name: Str, subjects: seq<Str>)

  datatype User = User(name: Str, publish: seq<Str>, subscribe: seq<Str>)

  function Inbox(user: Str): Str { Lit("_INBOX.") + user + Lit(".>") }

  function ConsumerApi(stream: Str): seq<Str> {
    [ Lit("$JS.API.STREAM.INFO.") + stream,
      Lit("$JS.API.CONSUMER.CREATE.") + stream,
      Lit("$JS.API.CONSUMER.CREATE.") + stream + Lit(".>"),
      Lit("$JS.API.CONSUMER.DURABLE.CREATE.") + stream + Lit(".*"),
      Lit("$JS.API.CONSUMER.INFO.") + stream + Lit(".*"),
      Lit("$JS.API.CONSUMER.MSG.NEXT.") + stream + Lit(".*") ]
  }

  function StreamApi(stream: Str): seq<Str> {
    [ Lit("$JS.API.STREAM.CREATE.") + stream,
      Lit("$JS.API.STREAM.UPDATE.") + stream,
      Lit("$JS.API.STREAM.INFO.") + stream ]
  }

  function FlatApi(streams: seq<Str>, api: Str -> seq<Str>): seq<Str> {
    if streams == [] then [] else api(streams[0]) + FlatApi(streams[1..], api)
  }

  function Subjects(routes: seq<Route>): seq<Str> {
    if routes == [] then [] else [routes[0].subject] + Subjects(routes[1..])
  }

  /** The rpc subjects a service answers. */
  function Serves(routes: seq<Route>, service: Str): seq<Str> {
    if routes == [] then []
    else (if routes[0].owner == service && routes[0].transport.Rpc? then [routes[0].subject] else [])
         + Serves(routes[1..], service)
  }

  /** The evt subjects a service emits. */
  function Emits(routes: seq<Route>, service: Str): seq<Str> {
    if routes == [] then []
    else (if routes[0].owner == service && routes[0].event.Some? then [routes[0].event.value] else [])
         + Emits(routes[1..], service)
  }

  function StreamNamed(streams: seq<Stream>, prefix: Str): Option<Str> {
    if streams == [] then None
    else if exists i | 0 <= i < |streams[0].subjects| :: prefix <= streams[0].subjects[i] then Some(streams[0].name)
    else StreamNamed(streams[1..], prefix)
  }

  /**
   * The streams a service pulls from: the command stream if it owns a command, the event stream if it consumes
   * events.
   */
  function Consumed(routes: seq<Route>, service: Str, streams: seq<Stream>, eventConsumers: seq<Str>): seq<Str> {
    var commands :=
      if exists i | 0 <= i < |routes| :: routes[i].owner == service && routes[i].transport.Command?
      then match StreamNamed(streams, Lit("cmd.")) case None => [] case Some(name) => [name]
      else [];
    var events :=
      if service in eventConsumers
      then match StreamNamed(streams, Lit("evt.")) case None => [] case Some(name) => [name]
      else [];
    commands + (if events != [] && events[0] in commands then [] else events)
  }

  function GatewayUser(reg: Registry): User {
    User(Lit("gateway"), Sort(LexLe, Subjects(Routes(reg))), [Inbox(Lit("gateway"))])
  }

  function ServiceUser(reg: Registry, service: Str, streams: seq<Stream>, eventConsumers: seq<Str>): User {
    var consumed := Consumed(Routes(reg), service, streams, eventConsumers);
    var jetstream :=
      if consumed == [] then [] else [Lit("$JS.API.INFO")] + FlatApi(consumed, ConsumerApi) + [Lit("$JS.ACK.>")];
    User(service,
         Sort(LexLe, Emits(Routes(reg), service) + jetstream),
         Sort(LexLe, Serves(Routes(reg), service) + [Inbox(service)]))
  }

  function StreamNames(streams: seq<Stream>): seq<Str> {
    if streams == [] then [] else [streams[0].name] + StreamNames(streams[1..])
  }

  function BootstrapUser(streams: seq<Stream>): User {
    User(Lit("bootstrap"),
         Sort(LexLe, [Lit("$JS.API.INFO")] + FlatApi(StreamNames(streams), StreamApi)),
         [Inbox(Lit("bootstrap"))])
  }

  function ObserverUser(): User { User(Lit("observer"), [], [Lit("evt.>"), Inbox(Lit("observer"))]) }

  /** The APP users, gateway first and then one per service in order. */
  function Users(reg: Registry, streams: seq<Stream>, eventConsumers: seq<Str>): seq<User> {
    [GatewayUser(reg)]
    + seq(|reg.services|, i requires 0 <= i < |reg.services| =>
        ServiceUser(reg, reg.services[i], streams, eventConsumers))
    + [BootstrapUser(streams), ObserverUser()]
  }

  /** Subjects of JetStream's own API and reply inboxes, told apart from routes by their first character. */
  predicate Control(s: Str) { s != [] && (s[0] == 36 || s[0] == 95) }

  lemma ControlLiterals(s: Str)
    ensures Control(Inbox(s)) && Control(Lit("$JS.API.INFO")) && Control(Lit("$JS.ACK.>"))
    ensures forall i | 0 <= i < 6 :: Control(ConsumerApi(s)[i])
    ensures forall i | 0 <= i < 3 :: Control(StreamApi(s)[i])
  {
    assert Lit("_INBOX.")[0] == 95 && Lit("$JS.API.INFO")[0] == 36 && Lit("$JS.ACK.>")[0] == 36;
    assert Lit("$JS.API.STREAM.INFO.")[0] == 36 && Lit("$JS.API.CONSUMER.CREATE.")[0] == 36;
    assert Lit("$JS.API.CONSUMER.DURABLE.CREATE.")[0] == 36 && Lit("$JS.API.CONSUMER.INFO.")[0] == 36;
    assert Lit("$JS.API.CONSUMER.MSG.NEXT.")[0] == 36;
    assert Lit("$JS.API.STREAM.CREATE.")[0] == 36 && Lit("$JS.API.STREAM.UPDATE.")[0] == 36;
  }

  lemma {:induction false} FlatApiControl(streams: seq<Str>, api: Str -> seq<Str>)
    requires forall s, i | 0 <= i < |api(s)| :: Control(api(s)[i])
    ensures forall x | x in FlatApi(streams, api) :: Control(x)
  {
    if streams != [] {
      FlatApiControl(streams[1..], api);
    }
  }

  lemma {:induction false} SubjectsExactly(routes: seq<Route>, s: Str)
    ensures s in Subjects(routes) <==> exists t | t in routes :: t.subject == s
  {
    if routes != [] {
      SubjectsExactly(routes[1..], s);
      assert routes == [routes[0]] + routes[1..];
    }
  }

  lemma {:induction false} ServesExactly(routes: seq<Route>, service: Str, s: Str)
    ensures s in Serves(routes, service)
      <==> exists t | t in routes :: t.owner == service && t.transport.Rpc? && t.subject == s
  {
    if routes != [] {
      ServesExactly(routes[1..], service, s);
      assert routes == [routes[0]] + routes[1..];
    }
  }

  lemma {:induction false} EmitsExactly(routes: seq<Route>, service: Str, s: Str)
    ensures s in Emits(routes, service) <==> exists t | t in routes :: t.owner == service && t.event == Some(s)
  {
    if routes != [] {
      EmitsExactly(routes[1..], service, s);
      assert routes == [routes[0]] + routes[1..];
    }
  }

  lemma SortIn(xs: seq<Str>, s: Str)
    ensures s in Sort(LexLe, xs) <==> s in xs
  {
    SortCorrect(LexLe, xs);
    assert s in multiset(Sort(LexLe, xs)) <==> s in multiset(xs);
  }

  /** A service may publish its own events and subscribe to its own rpc subjects; the rest is control traffic. */
  lemma ServiceUserExactly(reg: Registry, service: Str, streams: seq<Stream>, eventConsumers: seq<Str>, s: Str)
    requires !Control(s)
    ensures s in ServiceUser(reg, service, streams, eventConsumers).publish <==> s in Emits(Routes(reg), service)
    ensures s in ServiceUser(reg, service, streams, eventConsumers).subscribe <==> s in Serves(Routes(reg), service)
  {
    var consumed := Consumed(Routes(reg), service, streams, eventConsumers);
    var jetstream :=
      if consumed == [] then [] else [Lit("$JS.API.INFO")] + FlatApi(consumed, ConsumerApi) + [Lit("$JS.ACK.>")];
    forall x: Str { ControlLiterals(x); }
    FlatApiControl(consumed, ConsumerApi);
    ControlLiterals(service);
    SortIn(Emits(Routes(reg), service) + jetstream, s);
    SortIn(Serves(Routes(reg), service) + [Inbox(service)], s);
  }

  lemma RouteSubjectsAreNotControl(reg: Registry, t: Route)
    requires ValidRegistry(reg) && t in Routes(reg)
    ensures t.subject != [] && t.subject[0] in [114, 99] && !Control(t.subject)
    ensures t.event.Some? ==> t.event.value != [] && t.event.value[0] == 101 && !Control(t.event.value)
    ensures t.event.Some? ==> t.event.value != Lit("evt.>")
  {
    RouteNames(reg, t);
    Prefixes();
    var s := EventSubject(t.resource, t.operation);
    assert s[4 + |t.resource|] == DOT;
    assert Lit("evt.>") == [101, 118, 116, 46, 62];
  }

  /** What the users other than services may do. */
  lemma OtherUsersExactly(reg: Registry, streams: seq<Stream>, s: Str)
    requires !Control(s) && s != Lit("evt.>")
    ensures s in GatewayUser(reg).publish <==> exists t | t in Routes(reg) :: t.subject == s
    ensures s !in GatewayUser(reg).subscribe
    ensures s !in BootstrapUser(streams).publish && s !in BootstrapUser(streams).subscribe
    ensures s !in ObserverUser().publish && s !in ObserverUser().subscribe
  {
    forall x: Str { ControlLiterals(x); }
    SortIn(Subjects(Routes(reg)), s);
    SubjectsExactly(Routes(reg), s);
    FlatApiControl(StreamNames(streams), StreamApi);
    ControlLiterals(s);
    ControlLiterals(Lit("gateway"));
    ControlLiterals(Lit("bootstrap"));
    ControlLiterals(Lit("observer"));
    SortIn([Lit("$JS.API.INFO")] + FlatApi(StreamNames(streams), StreamApi), s);
  }

  lemma NoRequestOnEvent(reg: Registry, t: Route)
    requires ValidRegistry(reg) && t in Routes(reg) && t.event.Some?
    ensures !exists u | u in Routes(reg) :: u.subject == t.event.value
  {
    forall u | u in Routes(reg) ensures u.subject != t.event.value {
      SubjectsPartition(reg, t, u);
    }
  }

  lemma ServicePermissions(
    reg: Registry, service: Str, streams: seq<Stream>, eventConsumers: seq<Str>, t: Route)
    requires ValidRegistry(reg) && t in Routes(reg)
    ensures t.subject !in ServiceUser(reg, service, streams, eventConsumers).publish
    ensures t.transport.Rpc? ==>
      (t.subject in ServiceUser(reg, service, streams, eventConsumers).subscribe <==> service == t.owner)
    ensures t.event.Some? ==>
      (t.event.value in ServiceUser(reg, service, streams, eventConsumers).publish <==> service == t.owner)
  {
    RouteSubjectsAreNotControl(reg, t);
    forall u | u in Routes(reg)
      ensures u.subject == t.subject ==> u == t
      ensures u.event.Some? && u.event == t.event ==> u == t
      ensures u.event != Some(t.subject)
    {
      SubjectsPartition(reg, u, t);
    }
    ServiceUserExactly(reg, service, streams, eventConsumers, t.subject);
    ServesExactly(Routes(reg), service, t.subject);
    EmitsExactly(Routes(reg), service, t.subject);
    if t.event.Some? {
      ServiceUserExactly(reg, service, streams, eventConsumers, t.event.value);
      EmitsExactly(Routes(reg), service, t.event.value);
    }
  }

  /** What the users beside the services may do with a route's subjects. */
  lemma OthersOnRoute(reg: Registry, streams: seq<Stream>, t: Route)
    requires ValidRegistry(reg) && t in Routes(reg)
    ensures t.subject in GatewayUser(reg).publish && t.subject !in GatewayUser(reg).subscribe
    ensures t.subject !in BootstrapUser(streams).publish && t.subject !in BootstrapUser(streams).subscribe
    ensures t.subject !in ObserverUser().publish && t.subject !in ObserverUser().subscribe
    ensures t.event.Some? ==>
      && t.event.value !in GatewayUser(reg).publish
      && t.event.value !in BootstrapUser(streams).publish && t.event.value !in ObserverUser().publish
  {
    RouteSubjectsAreNotControl(reg, t);
    assert Lit("evt.>")[0] == 101;
    OtherUsersExactly(reg, streams, t.subject);
    if t.event.Some? {
      OtherUsersExactly(reg, streams, t.event.value);
      NoRequestOnEvent(reg, t);
    }
  }

  /** The user in a given place: the gateway, then the services in order, then the two others. */
  function UserAt(reg: Registry, streams: seq<Stream>, eventConsumers: seq<Str>, i: nat): User
    requires i < |reg.services| + 3
  {
    if i == 0 then GatewayUser(reg)
    else if i <= |reg.services| then ServiceUser(reg, reg.services[i - 1], streams, eventConsumers)
    else if i == |reg.services| + 1 then BootstrapUser(streams)
    else ObserverUser()
  }

  lemma UsersAt(reg: Registry, streams: seq<Stream>, eventConsumers: seq<Str>, i: nat)
    requires i < |Users(reg, streams, eventConsumers)|
    ensures i < |reg.services| + 3
    ensures Users(reg, streams, eventConsumers)[i] == UserAt(reg, streams, eventConsumers, i)
  {
  }

  /**
   * In the generated permissions a request subject can be published by the gateway alone; an rpc
   * subject is heard by its owner alone, and an event subject is published by its owner alone.
   */
  lemma PermissionsPartition(reg: Registry, streams: seq<Stream>, eventConsumers: seq<Str>, t: Route, i: nat)
    requires ValidRegistry(reg) && t in Routes(reg) && i < |Users(reg, streams, eventConsumers)|
    ensures t.subject in Users(reg, streams, eventConsumers)[i].publish <==> i == 0
    ensures t.transport.Rpc? ==>
      (t.subject in Users(reg, streams, eventConsumers)[i].subscribe
       <==> 1 <= i <= |reg.services| && reg.services[i - 1] == t.owner)
    ensures t.event.Some? ==>
      (t.event.value in Users(reg, streams, eventConsumers)[i].publish
       <==> 1 <= i <= |reg.services| && reg.services[i - 1] == t.owner)
  {
    UsersAt(reg, streams, eventConsumers, i);
    PartitionAt(reg, streams, eventConsumers, t, i);
  }

  lemma PartitionAt(reg: Registry, streams: seq<Stream>, eventConsumers: seq<Str>, t: Route, i: nat)
    requires ValidRegistry(reg) && t in Routes(reg) && i < |reg.services| + 3
    ensures t.subject in UserAt(reg, streams, eventConsumers, i).publish <==> i == 0
    ensures t.transport.Rpc? ==>
      (t.subject in UserAt(reg, streams, eventConsumers, i).subscribe
       <==> 1 <= i <= |reg.services| && reg.services[i - 1] == t.owner)
    ensures t.event.Some? ==>
      (t.event.value in UserAt(reg, streams, eventConsumers, i).publish
       <==> 1 <= i <= |reg.services| && reg.services[i - 1] == t.owner)
  {
    OthersOnRoute(reg, streams, t);
    if 1 <= i <= |reg.services| {
      ServicePermissions(reg, reg.services[i - 1], streams, eventConsumers, t);
    }
  }

  // ---------- control traffic ----------

  ghost predicate Pulls(routes: seq<Route>, service: Str, streams: seq<Stream>, eventConsumers: seq<Str>, name: Str) {
    || ((exists t | t in routes :: t.owner == service && t.transport.Command?)
        && StreamNamed(streams, Lit("cmd.")) == Some(name))
    || (service in eventConsumers && StreamNamed(streams, Lit("evt.")) == Some(name))
  }

  /** A service pulls from the command stream when it owns a command, from the event stream when it consumes events. */
  lemma ConsumedExactly(routes: seq<Route>, service: Str, streams: seq<Stream>, eventConsumers: seq<Str>, name: Str)
    ensures name in Consumed(routes, service, streams, eventConsumers)
      <==> Pulls(routes, service, streams, eventConsumers, name)
  {
    if t :| t in routes && t.owner == service && t.transport.Command? {
      var i :| 0 <= i < |routes| && routes[i] == t;
    }
    if exists i | 0 <= i < |routes| :: routes[i].owner == service && routes[i].transport.Command? {
      var i :| 0 <= i < |routes| && routes[i].owner == service && routes[i].transport.Command?;
      assert routes[i] in routes;
    }
  }

  ghost predicate Carries(stream: Stream, prefix: Str) {
    exists j | 0 <= j < |stream.subjects| :: prefix <= stream.subjects[j]
  }

  /** The stream is the first with a subject under the prefix. */
  lemma {:induction false} StreamNamedExactly(streams: seq<Stream>, prefix: Str) returns (i: nat)
    ensures i <= |streams| && forall k | 0 <= k < i :: !Carries(streams[k], prefix)
    ensures i < |streams| ==> Carries(streams[i], prefix) && StreamNamed(streams, prefix) == Some(streams[i].name)
    ensures i == |streams| ==> StreamNamed(streams, prefix) == None
    decreases |streams|
  {
    i := 0;
    if streams != [] && !Carries(streams[0], prefix) {
      i := StreamNamedExactly(streams[1..], prefix);
      forall k | 0 < k <= i ensures k < |streams| ==> streams[k] == streams[1..][k - 1] {}
      i := i + 1;
    }
  }

  /** What pulling from a stream takes: looking at it, making and reading consumers, asking for messages. */
  predicate PullSubject(s: Str, stream: Str) {
    || s == Lit("$JS.API.STREAM.INFO.") + stream
    || s == Lit("$JS.API.CONSUMER.CREATE.") + stream
    || s == Lit("$JS.API.CONSUMER.CREATE.") + stream + Lit(".>")
    || s == Lit("$JS.API.CONSUMER.DURABLE.CREATE.") + stream + Lit(".*")
    || s == Lit("$JS.API.CONSUMER.INFO.") + stream + Lit(".*")
    || s == Lit("$JS.API.CONSUMER.MSG.NEXT.") + stream + Lit(".*")
  }

  lemma {:induction false} FlatApiExactly(streams: seq<Str>, api: Str -> seq<Str>, s: Str)
    ensures s in FlatApi(streams, api) <==> exists stream | stream in streams :: s in api(stream)
    decreases |streams|
  {
    if streams != [] {
      FlatApiExactly(streams[1..], api, s);
      assert streams == [streams[0]] + streams[1..];
    }
  }

  lemma PullsExactly(consumed: seq<Str>, s: Str)
    ensures s in FlatApi(consumed, ConsumerApi) <==> exists stream | stream in consumed :: PullSubject(s, stream)
  {
    FlatApiExactly(consumed, ConsumerApi, s);
    forall stream: Str ensures s in ConsumerApi(stream) <==> PullSubject(s, stream) { ApiExactly(s, stream); }
  }

  lemma ApiExactly(s: Str, stream: Str)
    ensures s in ConsumerApi(stream) <==> PullSubject(s, stream)
  {
  }

  /**
   * Everything a service may do: publish the events it emits and, for the streams it pulls from, the
   * requests that takes and acks; subscribe to the rpc subjects it serves and to its own inbox.
   */
  lemma ServiceUserAll(reg: Registry, service: Str, streams: seq<Stream>, eventConsumers: seq<Str>, s: Str)
    ensures s in ServiceUser(reg, service, streams, eventConsumers).publish <==>
      || (exists t | t in Routes(reg) :: t.owner == service && t.event == Some(s))
      || (exists name :: Pulls(Routes(reg), service, streams, eventConsumers, name)
                         && (s == Lit("$JS.API.INFO") || s == Lit("$JS.ACK.>") || PullSubject(s, name)))
    ensures s in ServiceUser(reg, service, streams, eventConsumers).subscribe <==>
      || (exists t | t in Routes(reg) :: t.owner == service && t.transport.Rpc? && t.subject == s)
      || s == Lit("_INBOX.") + service + Lit(".>")
  {
    var consumed := Consumed(Routes(reg), service, streams, eventConsumers);
    var jetstream :=
      if consumed == [] then [] else [Lit("$JS.API.INFO")] + FlatApi(consumed, ConsumerApi) + [Lit("$JS.ACK.>")];
    SortIn(Emits(Routes(reg), service) + jetstream, s);
    SortIn(Serves(Routes(reg), service) + [Inbox(service)], s);
    EmitsExactly(Routes(reg), service, s);
    ServesExactly(Routes(reg), service, s);
    PullsExactly(consumed, s);
    forall name ensures name in consumed <==> Pulls(Routes(reg), service, streams, eventConsumers, name) {
      ConsumedExactly(Routes(reg), service, streams, eventConsumers, name);
    }
    if consumed != [] {
      assert consumed[0] in consumed;
    }
  }

  lemma {:induction false} StreamNamesExactly(streams: seq<Stream>, name: Str)
    ensures name in StreamNames(streams) <==> exists i | 0 <= i < |streams| :: streams[i].name == name
    decreases |streams|
  {
    if streams != [] {
      StreamNamesExactly(streams[1..], name);
      assert streams == [streams[0]] + streams[1..];
      if i :| 0 <= i < |streams[1..]| && streams[1..][i].name == name {
        assert streams[i + 1].name == name;
      }
    }
  }

  /** What making, changing and inspecting a stream takes. */
  predicate StreamSubject(s: Str, name: Str) {
    || s == Lit("$JS.API.STREAM.CREATE.") + name
    || s == Lit("$JS.API.STREAM.UPDATE.") + name
    || s == Lit("$JS.API.STREAM.INFO.") + name
  }

  lemma BootstrapExactly(streams: seq<Stream>, s: Str)
    ensures s in BootstrapUser(streams).publish <==>
      s == Lit("$JS.API.INFO") || exists i | 0 <= i < |streams| :: StreamSubject(s, streams[i].name)
  {
    SortIn([Lit("$JS.API.INFO")] + FlatApi(StreamNames(streams), StreamApi), s);
    FlatApiExactly(StreamNames(streams), StreamApi, s);
    if name :| name in StreamNames(streams) && s in StreamApi(name) {
      StreamNamesExactly(streams, name);
    }
    if i :| 0 <= i < |streams| && StreamSubject(s, streams[i].name) {
      StreamNamesExactly(streams, streams[i].name);
      assert s in StreamApi(streams[i].name);
    }
  }

  /** Everything the other users may do: the gateway calls, the bootstrap makes streams, the observer listens. */
  lemma OtherUsersAll(reg: Registry, streams: seq<Stream>, s: Str)
    ensures s in GatewayUser(reg).publish <==> exists t | t in Routes(reg) :: t.subject == s
    ensures s in BootstrapUser(streams).publish <==>
      s == Lit("$JS.API.INFO") || exists i | 0 <= i < |streams| :: StreamSubject(s, streams[i].name)
    ensures ObserverUser().publish == []
    ensures s in ObserverUser().subscribe <==> s == Lit("evt.>") || s == Inbox(Lit("observer"))
    ensures s in GatewayUser(reg).subscribe <==> s == Inbox(Lit("gateway"))
    ensures s in BootstrapUser(streams).subscribe <==> s == Inbox(Lit("bootstrap"))
  {
    SortIn(Subjects(Routes(reg)), s);
    SubjectsExactly(Routes(reg), s);
    BootstrapExactly(streams, s);
  }

  /** Nobody hears another user's inbox. */
  lemma InboxesApart(reg: Registry, streams: seq<Stream>, eventConsumers: seq<Str>, i: nat, j: nat)
    requires ValidRegistry(reg)
    requires i < |Users(reg, streams, eventConsumers)| && j < |Users(reg, streams, eventConsumers)|
    ensures var users := Users(reg, streams, eventConsumers);
      Lit("_INBOX.") + users[i].name + Lit(".>") in users[j].subscribe <==> users[i].name == users[j].name
  {
    UsersAt(reg, streams, eventConsumers, i);
    UsersAt(reg, streams, eventConsumers, j);
    InboxAt(reg, streams, eventConsumers, UserAt(reg, streams, eventConsumers, i).name, j);
  }

  lemma InboxNames(a: Str, b: Str)
    ensures Inbox(a) == Inbox(b) <==> a == b
    ensures Inbox(a) == Lit("_INBOX.") + a + Lit(".>") && Control(Inbox(a)) && Inbox(a) != Lit("evt.>")
  {
    ControlLiterals(a);
    assert Lit("evt.>")[0] == 101;
    assert Inbox(a)[7..|Inbox(a)| - 2] == a && Inbox(b)[7..|Inbox(b)| - 2] == b;
  }

  lemma InboxAt(reg: Registry, streams: seq<Stream>, eventConsumers: seq<Str>, name: Str, j: nat)
    requires ValidRegistry(reg) && j < |reg.services| + 3
    ensures Inbox(name) in UserAt(reg, streams, eventConsumers, j).subscribe
      <==> name == UserAt(reg, streams, eventConsumers, j).name
  {
    InboxNames(name, UserAt(reg, streams, eventConsumers, j).name);
    if 1 <= j <= |reg.services| {
      ServiceUserAll(reg, reg.services[j - 1], streams, eventConsumers, Inbox(name));
      forall t | t in Routes(reg) ensures t.subject != Inbox(name) { RouteSubjectsAreNotControl(reg, t); }
    }
  }
}
