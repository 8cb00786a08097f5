/** At-least-once delivery to the event consumers, and the at-most-once effect of what they do. */
module Delivery {
  import opened Prelude
  import opened Registry
  import opened Envelopes
  import opened Guardrail
  import opened Bus

  /** The consumers' view of a deployment; `featured` are the resources that have a billing feature. */
  datatype Platform = Platform(reg: Registry, c: Crypto, secret: Str, featured: set<Str>)

  datatype Row = Row(
    organizationId: Str, actorId: Str, actorRole: Role, resource: Str, operation: Str, outcome: Str, requestId: Str)

  function RowOf(m: Meta): Row {
    Row(m.orgId, m.userId, m.role, m.resource, m.operation, Lit("success"), m.requestId)
  }

  /** Insert, ignoring a conflict on the unique request id. */
  function InsertIgnore(rows: map<Str, Row>, row: Row): map<Str, Row> {
    if row.requestId in rows then rows else rows[row.requestId := row]
  }

  class AuditTable {
    var rows: map<Str, Row>

    constructor ()
      ensures rows == map[]
    {
      rows := map[];
    }

    method Record(row: Row)
      modifies this
      ensures rows == InsertIgnore(old(rows), row)
    {
      if row.requestId !in rows {
        rows := rows[row.requestId := row];
      }
    }
  }

  /** What one unit is charged to. */
  datatype Charge = Charge(organizationId: Str, resource: Str)

  /** The vendor's count, deduplicated by idempotency key. */
  datatype Usage = Usage(charges: map<Str, Charge>, units: nat)

  function Counted(p: Platform, m: Meta): bool {
    match RuleFor(p.reg, m.resource, m.operation)
    case None => false
    case Some(rule) => rule.consumes && m.resource in p.featured
  }

  /** An event counts when its operation is declared to consume and its resource has a billing feature. */
  lemma CountedExactly(p: Platform, m: Meta)
    requires ValidRegistry(p.reg)
    ensures Counted(p, m)
      <==> m.resource in p.featured && exists i | 0 <= i < |p.reg.resources| ::
             && p.reg.resources[i].key == m.resource && m.operation in p.reg.operations
             && m.operation in p.reg.resources[i].rules && p.reg.resources[i].rules[m.operation].consumes
  {
    if RuleFor(p.reg, m.resource, m.operation).Some? {
      RuleExactly(p.reg, m.resource, m.operation, RuleFor(p.reg, m.resource, m.operation).value);
    }
    forall i | 0 <= i < |p.reg.resources| && p.reg.resources[i].key == m.resource
               && m.operation in p.reg.operations && m.operation in p.reg.resources[i].rules
      ensures RuleFor(p.reg, m.resource, m.operation) == Some(p.reg.resources[i].rules[m.operation])
    {
      RuleExactly(p.reg, m.resource, m.operation, p.reg.resources[i].rules[m.operation]);
    }
  }

  function Track(p: Platform, u: Usage, m: Meta): Usage {
    if !Counted(p, m) || m.requestId in u.charges then u
    else Usage(u.charges[m.requestId := Charge(m.orgId, m.resource)], u.units + 1)
  }

  class Meter {
    var usage: Usage

    constructor ()
      ensures usage == Usage(map[], 0)
    {
      usage := Usage(map[], 0);
    }

    method Count(p: Platform, m: Meta)
      modifies this
      ensures usage == Track(p, old(usage), m)
    {
      if Counted(p, m) && m.requestId !in usage.charges {
        usage := Usage(usage.charges[m.requestId := Charge(m.orgId, m.resource)], usage.units + 1);
      }
    }
  }

  // ---------- one delivery ----------

  /** What goes wrong with a delivery: the handler throws first, or its effect lands and the ack does not. */
  datatype Fault = NoFault | ThrowsBefore | LostAfter

  datatype Delivery = Delivery(message: Message, fault: Fault)

  function Accepted(p: Platform, m: Message): Option<Meta> { CheckEvent(p.reg, p.c, p.secret, m.body, m.subject) }

  /** The event whose effect this delivery completes, if it completes one. */
  function Completion(p: Platform, d: Delivery): Option<Meta> {
    if d.fault.ThrowsBefore? then None else Accepted(p, d.message)
  }

  function Completed(p: Platform, d: Delivery): seq<Meta> {
    match Completion(p, d)
    case None => []
    case Some(m) => [m]
  }

  /** A dropped message is acked: nothing in it can throw. */
  predicate Acked(p: Platform, d: Delivery) {
    d.fault.NoFault? || (d.fault.ThrowsBefore? && Accepted(p, d.message).None?)
  }

  /** A delivery has its effect unless the handler throws first; it is acked unless something goes wrong with it. */
  lemma DeliveryExactly(p: Platform, d: Delivery, m: Meta)
    ensures Completed(p, d) == [m]
      <==> !d.fault.ThrowsBefore? && CheckEvent(p.reg, p.c, p.secret, d.message.body, d.message.subject) == Some(m)
    ensures Completed(p, d) == []
      <==> d.fault.ThrowsBefore? || CheckEvent(p.reg, p.c, p.secret, d.message.body, d.message.subject).None?
    ensures Acked(p, d)
      <==> d.fault.NoFault?
           || (d.fault.ThrowsBefore? && CheckEvent(p.reg, p.c, p.secret, d.message.body, d.message.subject).None?)
  {
  }

  function AllCompleted(p: Platform, ds: seq<Delivery>): seq<Meta> {
    if ds == [] then [] else AllCompleted(p, ds[..|ds| - 1]) + Completed(p, ds[|ds| - 1])
  }

  function RowsFrom(rows: map<Str, Row>, ms: seq<Meta>): map<Str, Row> {
    if ms == [] then rows else InsertIgnore(RowsFrom(rows, ms[..|ms| - 1]), RowOf(ms[|ms| - 1]))
  }

  function UsageFrom(p: Platform, u: Usage, ms: seq<Meta>): Usage {
    if ms == [] then u else Track(p, UsageFrom(p, u, ms[..|ms| - 1]), ms[|ms| - 1])
  }

  lemma AppendedDelivery(p: Platform, ds: seq<Delivery>, i: nat)
    requires i < |ds|
    ensures AllCompleted(p, ds[..i + 1]) == AllCompleted(p, ds[..i]) + Completed(p, ds[i])
  {
    assert ds[..i + 1][..i] == ds[..i];
  }

  lemma AppendedRow(rows: map<Str, Row>, ms: seq<Meta>, m: Meta)
    ensures RowsFrom(rows, ms + [m]) == InsertIgnore(RowsFrom(rows, ms), RowOf(m))
  {
    assert (ms + [m])[..|ms|] == ms;
  }

  lemma AppendedUsage(p: Platform, u: Usage, ms: seq<Meta>, m: Meta)
    ensures UsageFrom(p, u, ms + [m]) == Track(p, UsageFrom(p, u, ms), m)
  {
    assert (ms + [m])[..|ms|] == ms;
  }

  lemma RowsStep(p: Platform, rows: map<Str, Row>, ds: seq<Delivery>, i: nat)
    requires i < |ds|
    ensures RowsFrom(rows, AllCompleted(p, ds[..i + 1]))
         == match Completion(p, ds[i])
            case None => RowsFrom(rows, AllCompleted(p, ds[..i]))
            case Some(m) => InsertIgnore(RowsFrom(rows, AllCompleted(p, ds[..i])), RowOf(m))
  {
    AppendedDelivery(p, ds, i);
    var before := AllCompleted(p, ds[..i]);
    assert before + [] == before;
    if Completion(p, ds[i]).Some? {
      AppendedRow(rows, before, Completion(p, ds[i]).value);
    }
  }

  lemma UsageStep(p: Platform, u: Usage, ds: seq<Delivery>, i: nat)
    requires i < |ds|
    ensures UsageFrom(p, u, AllCompleted(p, ds[..i + 1]))
         == match Completion(p, ds[i])
            case None => UsageFrom(p, u, AllCompleted(p, ds[..i]))
            case Some(m) => Track(p, UsageFrom(p, u, AllCompleted(p, ds[..i])), m)
  {
    AppendedDelivery(p, ds, i);
    var before := AllCompleted(p, ds[..i]);
    assert before + [] == before;
    if Completion(p, ds[i]).Some? {
      AppendedUsage(p, u, before, Completion(p, ds[i]).value);
    }
  }

  /** consume with the audit handler: every delivery ends in an ack or a nak, and none stops the loop. */
  method ConsumeAudit(p: Platform, ds: seq<Delivery>, table: AuditTable) returns (acks: seq<bool>)
    modifies table
    ensures |acks| == |ds| && forall i | 0 <= i < |ds| :: acks[i] == Acked(p, ds[i])
    ensures table.rows == RowsFrom(old(table.rows), AllCompleted(p, ds))
  {
    acks := [];
    for i := 0 to |ds|
      invariant |acks| == i && forall k | 0 <= k < i :: acks[k] == Acked(p, ds[k])
      invariant table.rows == RowsFrom(old(table.rows), AllCompleted(p, ds[..i]))
    {
      RowsStep(p, old(table.rows), ds, i);
      var done := Completion(p, ds[i]);
      if done.Some? {
        table.Record(RowOf(done.value));
      }
      acks := acks + [Acked(p, ds[i])];
    }
    assert ds[..|ds|] == ds;
  }

  /** consume with the metering handler. */
  method ConsumeMeter(p: Platform, ds: seq<Delivery>, meter: Meter) returns (acks: seq<bool>)
    modifies meter
    ensures |acks| == |ds| && forall i | 0 <= i < |ds| :: acks[i] == Acked(p, ds[i])
    ensures meter.usage == UsageFrom(p, old(meter.usage), AllCompleted(p, ds))
  {
    acks := [];
    for i := 0 to |ds|
      invariant |acks| == i && forall k | 0 <= k < i :: acks[k] == Acked(p, ds[k])
      invariant meter.usage == UsageFrom(p, old(meter.usage), AllCompleted(p, ds[..i]))
    {
      UsageStep(p, old(meter.usage), ds, i);
      var done := Completion(p, ds[i]);
      if done.Some? {
        meter.Count(p, done.value);
      }
      acks := acks + [Acked(p, ds[i])];
    }
    assert ds[..|ds|] == ds;
  }

  // ---------- what the stores hold afterwards ----------

  ghost predicate FirstFor(ms: seq<Meta>, id: Str, k: int) {
    0 <= k < |ms| && ms[k].requestId == id && forall j | 0 <= j < k :: ms[j].requestId != id
  }

  ghost predicate HasId(ms: seq<Meta>, id: Str) { exists k :: FirstFor(ms, id, k) }

  lemma {:induction false} FirstIndex(ms: seq<Meta>, id: Str) returns (k: nat)
    requires exists j | 0 <= j < |ms| :: ms[j].requestId == id
    ensures FirstFor(ms, id, k)
  {
    k := 0;
    while ms[k].requestId != id
      invariant k < |ms| && forall j | 0 <= j < k :: ms[j].requestId != id
      decreases |ms| - k
    {
      k := k + 1;
    }
  }

  lemma HasIdStep(front: seq<Meta>, m: Meta, id: Str)
    ensures forall k | 0 <= k < |front| :: FirstFor(front + [m], id, k) <==> FirstFor(front, id, k)
    ensures FirstFor(front + [m], id, |front|) <==> m.requestId == id && !HasId(front, id)
    ensures HasId(front + [m], id) <==> HasId(front, id) || m.requestId == id
  {
    var ms := front + [m];
    assert forall k | 0 <= k < |front| :: ms[k] == front[k];
    assert ms[|front|] == m;
    if j :| 0 <= j < |front| && front[j].requestId == id {
      var k := FirstIndex(front, id);
      assert FirstFor(ms, id, k);
    }
  }

  /** Who did what in which organisation, column by column. */
  predicate Tells(row: Row, m: Meta) {
    && row.organizationId == m.orgId && row.actorId == m.userId && row.actorRole == m.role
    && row.resource == m.resource && row.operation == m.operation && row.requestId == m.requestId
    && row.outcome == Lit("success")
  }

  /** The row kept for an id: the first completion's, if there is one. */
  ghost predicate RowsOf(rows: map<Str, Row>, ms: seq<Meta>, id: Str) {
    && (id in rows <==> HasId(ms, id))
    && forall k | FirstFor(ms, id, k) :: id in rows && rows[id] == RowOf(ms[k])
  }

  lemma RowsOfStep(rows: map<Str, Row>, front: seq<Meta>, m: Meta, id: Str)
    requires RowsOf(rows, front, id)
    ensures RowsOf(InsertIgnore(rows, RowOf(m)), front + [m], id)
  {
    HasIdStep(front, m, id);
    var after := InsertIgnore(rows, RowOf(m));
    forall k | FirstFor(front + [m], id, k) ensures id in after && after[id] == RowOf((front + [m])[k]) {
      if k < |front| {
        assert FirstFor(front, id, k);
      }
    }
  }

  /** One row per request id completed at least once, and it tells of the first completion. */
  lemma RowsExactly(ms: seq<Meta>, id: Str)
    ensures id in RowsFrom(map[], ms) <==> HasId(ms, id)
    ensures forall k | FirstFor(ms, id, k) :: id in RowsFrom(map[], ms) && Tells(RowsFrom(map[], ms)[id], ms[k])
    ensures forall k | FirstFor(ms, id, k) ::
      var row := RowsFrom(map[], ms)[id];
      && row.organizationId == ms[k].orgId && row.actorId == ms[k].userId && row.actorRole == ms[k].role
      && row.resource == ms[k].resource && row.operation == ms[k].operation && row.requestId == ms[k].requestId
      && row.outcome == Lit("success")
  {
    RowsAreFirst(ms, id);
  }

  lemma {:induction false} RowsAreFirst(ms: seq<Meta>, id: Str)
    ensures RowsOf(RowsFrom(map[], ms), ms, id)
    decreases |ms|
  {
    if ms != [] {
      var front, last := ms[..|ms| - 1], ms[|ms| - 1];
      RowsAreFirst(front, id);
      RowsOfStep(RowsFrom(map[], front), front, last, id);
      assert ms == front + [last];
    }
  }

  ghost predicate CountedId(p: Platform, ms: seq<Meta>, id: Str) {
    exists k | 0 <= k < |ms| :: Counted(p, ms[k]) && ms[k].requestId == id
  }

  lemma CountedIdStep(p: Platform, front: seq<Meta>, m: Meta, id: Str)
    ensures CountedId(p, front + [m], id) <==> CountedId(p, front, id) || (Counted(p, m) && m.requestId == id)
  {
    var ms := front + [m];
    assert ms[|front|] == m;
    assert forall k | 0 <= k < |front| :: ms[k] == front[k];
    if CountedId(p, front, id) {
      var k :| 0 <= k < |front| && Counted(p, front[k]) && front[k].requestId == id;
      assert Counted(p, ms[k]) && ms[k].requestId == id;
    }
  }

  /** The first countable event with this id is the organisation's that is charged, for its resource. */
  ghost predicate ChargedAt(p: Platform, ms: seq<Meta>, id: Str, charge: Charge, k: int) {
    && 0 <= k < |ms| && Counted(p, ms[k]) && ms[k].requestId == id
    && charge.organizationId == ms[k].orgId && charge.resource == ms[k].resource
    && forall j | 0 <= j < k :: !(Counted(p, ms[j]) && ms[j].requestId == id)
  }

  ghost predicate ChargedFor(p: Platform, ms: seq<Meta>, id: Str, charge: Charge) {
    exists k :: ChargedAt(p, ms, id, charge, k)
  }

  lemma ChargedStep(p: Platform, front: seq<Meta>, m: Meta, id: Str, charge: Charge)
    ensures ChargedFor(p, front, id, charge) ==> ChargedFor(p, front + [m], id, charge)
    ensures !CountedId(p, front, id) && Counted(p, m) && m.requestId == id && charge == Charge(m.orgId, m.resource) ==>
      ChargedFor(p, front + [m], id, charge)
  {
    var ms := front + [m];
    if k :| ChargedAt(p, front, id, charge, k) {
      assert ChargedAt(p, ms, id, charge, k);
    }
    if !CountedId(p, front, id) && Counted(p, m) && m.requestId == id && charge == Charge(m.orgId, m.resource) {
      assert ChargedAt(p, ms, id, charge, |front|);
    }
  }

  ghost predicate ChargedAll(p: Platform, ms: seq<Meta>, u: Usage) {
    forall id | id in u.charges :: ChargedFor(p, ms, id, u.charges[id])
  }

  lemma TrackCharges(p: Platform, front: seq<Meta>, m: Meta, u: Usage)
    requires ChargedAll(p, front, u) && forall id :: id in u.charges <==> CountedId(p, front, id)
    ensures ChargedAll(p, front + [m], Track(p, u, m))
  {
    var after := Track(p, u, m);
    forall id | id in after.charges ensures ChargedFor(p, front + [m], id, after.charges[id]) {
      ChargedStep(p, front, m, id, after.charges[id]);
    }
  }

  /** One unit per request id with a countable event completed, charged as the first of them says. */
  lemma {:induction false} UsageExactly(p: Platform, ms: seq<Meta>)
    ensures var u := UsageFrom(p, Usage(map[], 0), ms);
      && u.units == |u.charges|
      && (forall id :: id in u.charges <==> CountedId(p, ms, id))
      && forall id | id in u.charges :: ChargedFor(p, ms, id, u.charges[id])
  {
    if ms != [] {
      var front, m := ms[..|ms| - 1], ms[|ms| - 1];
      UsageExactly(p, front);
      AppendedUsage(p, Usage(map[], 0), front, m);
      assert ms == front + [m];
      forall id ensures CountedId(p, ms, id) <==> CountedId(p, front, id) || (Counted(p, m) && m.requestId == id) {
        CountedIdStep(p, front, m, id);
      }
      TrackCharges(p, front, m, UsageFrom(p, Usage(map[], 0), front));
    }
  }

  // ---------- the stream ----------

  const MAX_DELIVER := 5

  /** The durable consumer's record of each stored message: how often it was delivered, and whether it was acked. */
  datatype Durable = Durable(count: seq<nat>, acked: seq<bool>, deliveries: seq<Delivery>)

  datatype Attempt = Attempt(index: nat, fault: Fault)

  function Fresh(stored: seq<Message>): Durable {
    Durable(seq(|stored|, _ => 0), seq(|stored|, _ => false), [])
  }

  ghost predicate Shaped(stored: seq<Message>, d: Durable) { |d.count| == |d.acked| == |stored| }

  /** The server redelivers any unacked message, in any order, until it has delivered it MAX_DELIVER times. */
  function Try(p: Platform, stored: seq<Message>, d: Durable, a: Attempt): (r: Durable)
    requires Shaped(stored, d)
    ensures Shaped(stored, r)
  {
    if a.index >= |stored| || d.acked[a.index] || d.count[a.index] >= MAX_DELIVER then d
    else
      var delivery := Delivery(stored[a.index], a.fault);
      Durable(d.count[a.index := d.count[a.index] + 1],
              d.acked[a.index := Acked(p, delivery)],
              d.deliveries + [delivery])
  }

  function Attempts(p: Platform, stored: seq<Message>, attempts: seq<Attempt>): (r: Durable)
    ensures Shaped(stored, r)
  {
    if attempts == [] then Fresh(stored)
    else Try(p, stored, Attempts(p, stored, attempts[..|attempts| - 1]), attempts[|attempts| - 1])
  }

  /** A message is delivered on an attempt exactly while it is unacked and has been delivered four times or less. */
  lemma AttemptExactly(p: Platform, stored: seq<Message>, attempts: seq<Attempt>, a: Attempt)
    ensures var d, after := Attempts(p, stored, attempts), Attempts(p, stored, attempts + [a]);
      if a.index < |stored| && !d.acked[a.index] && d.count[a.index] <= 4 then
        && after.deliveries == d.deliveries + [Delivery(stored[a.index], a.fault)]
        && after.count == d.count[a.index := d.count[a.index] + 1]
        && after.acked == d.acked[a.index := Acked(p, Delivery(stored[a.index], a.fault))]
      else after == d
  {
    assert (attempts + [a])[..|attempts|] == attempts;
  }

  lemma CompletedIn(p: Platform, ds: seq<Delivery>, d: Delivery, m: Meta)
    ensures m in AllCompleted(p, ds + [d]) <==> m in AllCompleted(p, ds) || m in Completed(p, d)
  {
    assert (ds + [d])[..|ds|] == ds;
  }

  /** What the durable consumer's record says about what has had an effect. */
  ghost predicate Faithful(p: Platform, stored: seq<Message>, d: Durable)
    requires Shaped(stored, d)
  {
    && (forall i | 0 <= i < |stored| :: d.count[i] <= MAX_DELIVER)
    && (forall i | 0 <= i < |stored| && d.acked[i] && Accepted(p, stored[i]).Some? ::
          Accepted(p, stored[i]).value in AllCompleted(p, d.deliveries))
    && (forall m | m in AllCompleted(p, d.deliveries) ::
          exists i | 0 <= i < |stored| :: Accepted(p, stored[i]) == Some(m))
  }

  lemma TryKeeps(p: Platform, stored: seq<Message>, d: Durable, a: Attempt)
    requires Shaped(stored, d) && Faithful(p, stored, d)
    ensures Faithful(p, stored, Try(p, stored, d, a))
  {
    if a.index < |stored| && !d.acked[a.index] && d.count[a.index] < MAX_DELIVER {
      var delivery := Delivery(stored[a.index], a.fault);
      forall m ensures m in AllCompleted(p, d.deliveries + [delivery])
        <==> m in AllCompleted(p, d.deliveries) || m in Completed(p, delivery)
      {
        CompletedIn(p, d.deliveries, delivery, m);
      }
    }
  }

  /**
   * Under every interleaving of throws, crashes, naks and redeliveries: no message is delivered more than
   * MAX_DELIVER times, an acked message that was genuine has had its effect, and nothing but a stored
   * genuine message ever has one.
   */
  lemma {:induction false} AtLeastOnce(p: Platform, stored: seq<Message>, attempts: seq<Attempt>)
    ensures Faithful(p, stored, Attempts(p, stored, attempts))
    decreases |attempts|
  {
    if attempts != [] {
      AtLeastOnce(p, stored, attempts[..|attempts| - 1]);
      TryKeeps(p, stored, Attempts(p, stored, attempts[..|attempts| - 1]), attempts[|attempts| - 1]);
    }
  }

  /**
   * So the trail: after any such history an id has a row exactly when an event with that id completed, the
   * row is that of a genuine stored event, and there is one once such an event is acked.
   */
  lemma AuditTrail(p: Platform, stored: seq<Message>, attempts: seq<Attempt>, id: Str)
    ensures var d := Attempts(p, stored, attempts);
      var rows := RowsFrom(map[], AllCompleted(p, d.deliveries));
      && (id in rows <==> HasId(AllCompleted(p, d.deliveries), id))
      && (id in rows ==> exists i | 0 <= i < |stored| ::
            Accepted(p, stored[i]).Some? && Accepted(p, stored[i]).value.requestId == id
            && Tells(rows[id], Accepted(p, stored[i]).value))
      && (forall i | 0 <= i < |stored| && d.acked[i] && Accepted(p, stored[i]).Some? ::
            Accepted(p, stored[i]).value.requestId in rows)
  {
    var d := Attempts(p, stored, attempts);
    var ms := AllCompleted(p, d.deliveries);
    AtLeastOnce(p, stored, attempts);
    RowsExactly(ms, id);
    if id in RowsFrom(map[], ms) {
      var k :| FirstFor(ms, id, k);
      assert ms[k] in ms;
    }
    forall i | 0 <= i < |stored| && d.acked[i] && Accepted(p, stored[i]).Some?
      ensures Accepted(p, stored[i]).value.requestId in RowsFrom(map[], ms)
    {
      var m := Accepted(p, stored[i]).value;
      RowsExactly(ms, m.requestId);
      var j :| 0 <= j < |ms| && ms[j] == m;
      var k := FirstIndex(ms, m.requestId);
    }
  }

  function Audited(p: Platform, stored: seq<Message>, attempts: seq<Attempt>): map<Str, Row> {
    RowsFrom(map[], AllCompleted(p, Attempts(p, stored, attempts).deliveries))
  }

  function Metered(p: Platform, stored: seq<Message>, attempts: seq<Attempt>): Usage {
    UsageFrom(p, Usage(map[], 0), AllCompleted(p, Attempts(p, stored, attempts).deliveries))
  }

  /** A stored message is a genuine countable event with this id. */
  ghost predicate Billable(p: Platform, stored: seq<Message>, i: int, id: Str) {
    && 0 <= i < |stored|
    && Accepted(p, stored[i]).Some?
    && Counted(p, Accepted(p, stored[i]).value)
    && Accepted(p, stored[i]).value.requestId == id
  }

  /** And it is of the organisation and resource charged. */
  ghost predicate Billed(p: Platform, stored: seq<Message>, i: int, id: Str, charge: Charge) {
    && Billable(p, stored, i, id)
    && charge.organizationId == Accepted(p, stored[i]).value.orgId
    && charge.resource == Accepted(p, stored[i]).value.resource
  }

  lemma MeteredIsBilled(p: Platform, stored: seq<Message>, attempts: seq<Attempt>, id: Str) returns (i: nat)
    requires id in Metered(p, stored, attempts).charges
    ensures Billed(p, stored, i, id, Metered(p, stored, attempts).charges[id])
  {
    var ms := AllCompleted(p, Attempts(p, stored, attempts).deliveries);
    AtLeastOnce(p, stored, attempts);
    UsageExactly(p, ms);
    var charge := Metered(p, stored, attempts).charges[id];
    assert ChargedFor(p, ms, id, charge);
    var k :| ChargedAt(p, ms, id, charge, k);
    assert ms[k] in ms;
    i :| 0 <= i < |stored| && Accepted(p, stored[i]) == Some(ms[k]);
  }

  lemma BillableIsMetered(p: Platform, stored: seq<Message>, attempts: seq<Attempt>, i: nat, id: Str)
    requires Billable(p, stored, i, id) && Attempts(p, stored, attempts).acked[i]
    ensures id in Metered(p, stored, attempts).charges
  {
    var ms := AllCompleted(p, Attempts(p, stored, attempts).deliveries);
    AtLeastOnce(p, stored, attempts);
    UsageExactly(p, ms);
    var k :| 0 <= k < |ms| && ms[k] == Accepted(p, stored[i]).value;
    assert CountedId(p, ms, id);
  }

  /**
   * And the bill: after any such history the units are as many as the ids metered, each charged to the
   * organisation and the resource of a genuine countable event, and the id of every acked one is among them.
   */
  lemma MeterTrail(p: Platform, stored: seq<Message>, attempts: seq<Attempt>, id: Str)
    ensures Metered(p, stored, attempts).units == |Metered(p, stored, attempts).charges|
    ensures id in Metered(p, stored, attempts).charges ==>
      exists i :: Billed(p, stored, i, id, Metered(p, stored, attempts).charges[id])
    ensures forall i | Billable(p, stored, i, id) && Attempts(p, stored, attempts).acked[i] ::
      id in Metered(p, stored, attempts).charges
  {
    UsageExactly(p, AllCompleted(p, Attempts(p, stored, attempts).deliveries));
    if id in Metered(p, stored, attempts).charges {
      var i := MeteredIsBilled(p, stored, attempts, id);
    }
    forall i | Billable(p, stored, i, id) && Attempts(p, stored, attempts).acked[i]
      ensures id in Metered(p, stored, attempts).charges
    {
      BillableIsMetered(p, stored, attempts, i, id);
    }
  }

  // ---------- from the gateway to the trail and the bill ----------

  /** The consumers verify with the deployment's registry and secret, and read what lies on its bus. */
  ghost predicate StoredFrom(cfg: Config, steps: seq<Step>, p: Platform, stored: seq<Message>) {
    && p.reg == cfg.reg && p.c == cfg.c && p.secret == cfg.secret
    && forall m <- stored :: m in Run(cfg, steps).net
  }

  lemma StoredCommissioned(cfg: Config, steps: seq<Step>, p: Platform, stored: seq<Message>, i: nat)
    requires ValidConfig(cfg) && StoredFrom(cfg, steps, p, stored)
    requires i < |stored| && Accepted(p, stored[i]).Some?
    ensures Commissioned(cfg, Run(cfg, steps).log, Accepted(p, stored[i]).value)
  {
    assert stored[i] in stored;
    EventsCommissioned(cfg, steps, stored[i], Accepted(p, stored[i]).value);
  }

  /** The request at j was signed by the gateway and run, for just what the row says. */
  ghost predicate RowSigned(cfg: Config, log: seq<Entry>, row: Row, j: nat) {
    && j < |log| && SignedRequest(cfg, log[j])
    && row.organizationId == log[j].sent.meta.orgId && row.actorId == log[j].sent.meta.userId
    && row.actorRole == log[j].sent.meta.role && row.requestId == log[j].sent.meta.requestId
    && row.resource == log[j].sent.meta.resource && row.operation == log[j].sent.meta.operation
    && row.outcome == Lit("success")
    && exists k | j < k < |log| :: log[k].Executed? && SameRequest(log[j], log[k].envelope)
  }

  lemma RowOfRequest(cfg: Config, log: seq<Entry>, m: Meta, row: Row) returns (j: nat)
    requires Commissioned(cfg, log, m) && Tells(row, m)
    ensures RowSigned(cfg, log, row, j)
  {
    var i, k :| 0 <= i < k < |log| && SignedRequest(cfg, log[i]) && log[k].Executed?
                && SameRequest(log[i], log[k].envelope) && SameMeta(log[k].envelope.meta, m);
    j := i;
    SameColumns(log[i].sent.meta, log[k].envelope.meta);
    SameColumns(log[k].envelope.meta, m);
  }

  lemma SameColumns(m: Meta, n: Meta)
    requires SameMeta(m, n)
    ensures m.orgId == n.orgId && m.userId == n.userId && m.role == n.role
    ensures m.resource == n.resource && m.operation == n.operation && m.requestId == n.requestId
  {
    var a, b := m.(permissions := []), n.(permissions := []);
    assert a == b && a.orgId == m.orgId && b.orgId == n.orgId;
  }

  lemma RowCommissioned(
    cfg: Config, steps: seq<Step>, p: Platform, stored: seq<Message>, attempts: seq<Attempt>, id: Str)
    returns (j: nat)
    requires ValidConfig(cfg) && StoredFrom(cfg, steps, p, stored) && id in Audited(p, stored, attempts)
    ensures RowSigned(cfg, Run(cfg, steps).log, Audited(p, stored, attempts)[id], j)
    ensures Audited(p, stored, attempts)[id].requestId == id
  {
    AuditTrail(p, stored, attempts, id);
    var i :| 0 <= i < |stored| && Accepted(p, stored[i]).Some? && Accepted(p, stored[i]).value.requestId == id
             && Tells(Audited(p, stored, attempts)[id], Accepted(p, stored[i]).value);
    StoredCommissioned(cfg, steps, p, stored, i);
    j := RowOfRequest(cfg, Run(cfg, steps).log, Accepted(p, stored[i]).value, Audited(p, stored, attempts)[id]);
  }

  /** The request at j was signed by the gateway and run, for a countable operation of just what is charged. */
  ghost predicate UnitSigned(cfg: Config, log: seq<Entry>, p: Platform, id: Str, charge: Charge, j: nat) {
    && j < |log| && SignedRequest(cfg, log[j]) && log[j].sent.meta.requestId == id
    && charge.organizationId == log[j].sent.meta.orgId && charge.resource == log[j].sent.meta.resource
    && Counted(p, log[j].sent.meta)
    && exists k | j < k < |log| :: log[k].Executed? && SameRequest(log[j], log[k].envelope)
  }

  lemma UnitOfRequest(cfg: Config, log: seq<Entry>, p: Platform, m: Meta, charge: Charge) returns (j: nat)
    requires Commissioned(cfg, log, m) && Counted(p, m) && charge == Charge(m.orgId, m.resource)
    ensures UnitSigned(cfg, log, p, m.requestId, charge, j)
  {
    var i, k :| 0 <= i < k < |log| && SignedRequest(cfg, log[i]) && log[k].Executed?
                && SameRequest(log[i], log[k].envelope) && SameMeta(log[k].envelope.meta, m);
    j := i;
    SameColumns(log[i].sent.meta, log[k].envelope.meta);
    SameColumns(log[k].envelope.meta, m);
  }

  lemma UnitCommissioned(
    cfg: Config, steps: seq<Step>, p: Platform, stored: seq<Message>, attempts: seq<Attempt>, id: Str)
    returns (j: nat)
    requires ValidConfig(cfg) && StoredFrom(cfg, steps, p, stored) && id in Metered(p, stored, attempts).charges
    ensures UnitSigned(cfg, Run(cfg, steps).log, p, id, Metered(p, stored, attempts).charges[id], j)
  {
    var i := MeteredIsBilled(p, stored, attempts, id);
    StoredCommissioned(cfg, steps, p, stored, i);
    j := UnitOfRequest(cfg, Run(cfg, steps).log, p, Accepted(p, stored[i]).value,
                       Metered(p, stored, attempts).charges[id]);
  }

  /**
   * End to end: whatever is published on the bus and however its events are delivered, every audit row
   * names the organisation, actor, role and operation of a request the gateway signed and a handler ran,
   * and every unit is charged to the organisation and the resource of such a request.
   */
  lemma TrailCommissioned(
    cfg: Config, steps: seq<Step>, p: Platform, stored: seq<Message>, attempts: seq<Attempt>, id: Str)
    requires ValidConfig(cfg) && StoredFrom(cfg, steps, p, stored)
    ensures id in Audited(p, stored, attempts) ==>
      && Audited(p, stored, attempts)[id].requestId == id
      && exists j :: RowSigned(cfg, Run(cfg, steps).log, Audited(p, stored, attempts)[id], j)
    ensures id in Metered(p, stored, attempts).charges ==>
      exists j :: UnitSigned(cfg, Run(cfg, steps).log, p, id, Metered(p, stored, attempts).charges[id], j)
  {
    if id in Audited(p, stored, attempts) {
      var j := RowCommissioned(cfg, steps, p, stored, attempts, id);
    }
    if id in Metered(p, stored, attempts).charges {
      var j := UnitCommissioned(cfg, steps, p, stored, attempts, id);
    }
  }
}
