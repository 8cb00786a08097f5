/** The schemas both ends parse with, and what survives the trip through JSON text. */
module Wire {
  import opened Prelude
  import opened Json
  import opened Canonical
  import opened Registry
  import opened Envelopes

  // ---------- reading fields ----------

  function TextAt(fs: seq<Field>, key: Str): Option<Str> {
    match Get(fs, key)
    case Some(Text(s)) => Some(s)
    case _ => None
  }

  function IntegerAt(fs: seq<Field>, key: Str): Option<SafeInt> {
    match Get(fs, key)
    case Some(Num(n)) => if SafeInteger(n) then Some(n) else None
    case _ => None
  }

  function AllTexts(items: seq<Value>): Option<seq<Str>> {
    if items == [] then Some([])
    else
      match (items[0], AllTexts(items[1..]))
      case (Text(s), Some(rest)) => Some([s] + rest)
      case _ => None
  }

  function TextsAt(fs: seq<Field>, key: Str): Option<seq<Str>> {
    match Get(fs, key)
    case Some(Arr(items)) => AllTexts(items)
    case _ => None
  }

  lemma {:induction false} AllTextsOf(xs: seq<Str>)
    ensures AllTexts(Texts(xs)) == Some(xs)
  {
    if xs != [] {
      AllTextsOf(xs[1..]);
      assert Texts(xs)[1..] == Texts(xs[1..]);
      assert xs == [xs[0]] + xs[1..];
    }
  }

  // ---------- meta ----------

  const META_KEYS: seq<Str> :=
    [ Lit("requestId"), Lit("orgId"), Lit("userId"), Lit("role"), Lit("permissions"), Lit("plan"), Lit("resource"),
      Lit("operation"), Lit("issuedAt"), Lit("deadlineAt"), Lit("traceparent") ]

  /** An absent traceparent is an absent key. */
  function MetaKeys(m: Meta): seq<Str> { if m.traceparent.None? then META_KEYS[..10] else META_KEYS }

  function MetaValues(m: Meta): seq<Value> {
    [ Text(m.requestId), Text(m.orgId), Text(m.userId), Text(RoleName(m.role)), Arr(Texts(m.permissions)),
      Text(m.plan), Text(m.resource), Text(m.operation), Num(m.issuedAt), Num(m.deadlineAt) ]
    + (if m.traceparent.None? then [] else [Text(m.traceparent.value)])
  }

  function MetaValue(m: Meta): Value { Obj(Record(MetaKeys(m), MetaValues(m))) }

  function RoleAt(fs: seq<Field>, key: Str): Option<Role> {
    match TextAt(fs, key)
    case None => None
    case Some(s) => RoleNamed(s)
  }

  /** requestMeta.safeParse: unknown keys are dropped, anything else that does not fit refuses. */
  function ParseMeta(reg: Registry, v: Value): Option<Meta> {
    if !v.Obj? then None
    else
      var fs := v.fields;
      var requestId, orgId, userId := TextAt(fs, META_KEYS[0]), TextAt(fs, META_KEYS[1]), TextAt(fs, META_KEYS[2]);
      var role, permissions := RoleAt(fs, META_KEYS[3]), TextsAt(fs, META_KEYS[4]);
      var plan, resource, operation := TextAt(fs, META_KEYS[5]), TextAt(fs, META_KEYS[6]), TextAt(fs, META_KEYS[7]);
      var issuedAt, deadlineAt := IntegerAt(fs, META_KEYS[8]), IntegerAt(fs, META_KEYS[9]);
      var traceparent := TextAt(fs, META_KEYS[10]);
      if && requestId.Some? && |requestId.value| >= 8
         && orgId.Some? && orgId.value != []
         && userId.Some? && userId.value != []
         && role.Some? && permissions.Some?
         && plan.Some? && plan.value in reg.plans
         && resource.Some? && FindResource(reg.resources, resource.value).Some?
         && operation.Some? && operation.value in reg.operations
         && issuedAt.Some? && deadlineAt.Some?
         && (traceparent.Some? || Get(fs, META_KEYS[10]).None?)
      then Some(Meta(requestId.value, orgId.value, userId.value, role.value, permissions.value, plan.value,
                     resource.value, operation.value, issuedAt.value, deadlineAt.value, traceparent))
      else None
  }

  /** A meta the schema accepts. */
  predicate Acceptable(reg: Registry, m: Meta) {
    && |m.requestId| >= 8 && m.orgId != [] && m.userId != []
    && m.plan in reg.plans
    && FindResource(reg.resources, m.resource).Some?
    && m.operation in reg.operations
    && SafeInteger(m.issuedAt) && SafeInteger(m.deadlineAt)
  }

  lemma MetaKeysDistinct()
    ensures RecordKeys(META_KEYS) && RecordKeys(META_KEYS[..10])
  {
    assert Mark(Lit("requestId")) == 0x90065 && Mark(Lit("orgId")) == 0x50072 && Mark(Lit("userId")) == 0x60073;
    assert Mark(Lit("role")) == 0x4006F && Mark(Lit("permissions")) == 0xB0065 && Mark(Lit("plan")) == 0x4006C;
    assert Mark(Lit("resource")) == 0x80065 && Mark(Lit("operation")) == 0x90070;
    assert Mark(Lit("issuedAt")) == 0x80073 && Mark(Lit("deadlineAt")) == 0xA0065;
    assert Mark(Lit("traceparent")) == 0xB0072;
  }

  lemma GetRecord(keys: seq<Str>, values: seq<Value>, i: nat)
    requires RecordKeys(keys) && |keys| == |values| && i < |keys|
    ensures Get(Record(keys, values), keys[i]) == Some(values[i])
  {
    RecordOrder(keys, values);
    GetAt(Record(keys, values), i);
  }

  lemma GetNoRecord(keys: seq<Str>, values: seq<Value>, key: Str)
    requires |keys| == |values| && key !in keys
    ensures Get(Record(keys, values), key).None?
  {
    if Get(Record(keys, values), key).Some? {
      var i := GetFrom(Record(keys, values), key);
    }
  }

  lemma MetaGets(m: Meta)
    ensures |MetaKeys(m)| == |MetaValues(m)|
    ensures forall i | 0 <= i < 10 :: Get(Record(MetaKeys(m), MetaValues(m)), META_KEYS[i]) == Some(MetaValues(m)[i])
    ensures Get(Record(MetaKeys(m), MetaValues(m)), META_KEYS[10])
         == match m.traceparent { case None => None case Some(t) => Some(Text(t)) }
  {
    MetaKeysDistinct();
    var keys, values := MetaKeys(m), MetaValues(m);
    forall i | 0 <= i < |keys| ensures Get(Record(keys, values), META_KEYS[i]) == Some(values[i]) {
      GetRecord(keys, values, i);
    }
    if m.traceparent.None? {
      forall i | 0 <= i < |keys| ensures keys[i] != META_KEYS[10] {
        assert Mark(META_KEYS[i]) != Mark(META_KEYS[10]);
      }
      GetNoRecord(keys, values, META_KEYS[10]);
    }
  }

  lemma ParseMetaFrom(reg: Registry, fs: seq<Field>, m: Meta)
    requires Acceptable(reg, m)
    requires TextAt(fs, META_KEYS[0]) == Some(m.requestId) && TextAt(fs, META_KEYS[1]) == Some(m.orgId)
    requires TextAt(fs, META_KEYS[2]) == Some(m.userId) && RoleAt(fs, META_KEYS[3]) == Some(m.role)
    requires TextsAt(fs, META_KEYS[4]) == Some(m.permissions) && TextAt(fs, META_KEYS[5]) == Some(m.plan)
    requires TextAt(fs, META_KEYS[6]) == Some(m.resource) && TextAt(fs, META_KEYS[7]) == Some(m.operation)
    requires IntegerAt(fs, META_KEYS[8]) == Some(m.issuedAt) && IntegerAt(fs, META_KEYS[9]) == Some(m.deadlineAt)
    requires TextAt(fs, META_KEYS[10]) == m.traceparent
    requires m.traceparent.None? ==> Get(fs, META_KEYS[10]).None?
    ensures ParseMeta(reg, Obj(fs)) == Some(m)
  {
  }

  lemma FieldsOfMeta(fs: seq<Field>, m: Meta)
    requires forall i | 0 <= i < 10 :: Get(fs, META_KEYS[i]) == Some(MetaValues(m)[i])
    ensures TextAt(fs, META_KEYS[0]) == Some(m.requestId) && TextAt(fs, META_KEYS[1]) == Some(m.orgId)
    ensures TextAt(fs, META_KEYS[2]) == Some(m.userId) && TextAt(fs, META_KEYS[3]) == Some(RoleName(m.role))
    ensures Get(fs, META_KEYS[4]) == Some(Arr(Texts(m.permissions))) && TextAt(fs, META_KEYS[5]) == Some(m.plan)
    ensures TextAt(fs, META_KEYS[6]) == Some(m.resource) && TextAt(fs, META_KEYS[7]) == Some(m.operation)
    ensures Get(fs, META_KEYS[8]) == Some(Num(m.issuedAt)) && Get(fs, META_KEYS[9]) == Some(Num(m.deadlineAt))
  {
  }

  lemma ParseMetaFields(reg: Registry, fs: seq<Field>, m: Meta)
    requires Acceptable(reg, m)
    requires forall i | 0 <= i < 10 :: Get(fs, META_KEYS[i]) == Some(MetaValues(m)[i])
    requires Get(fs, META_KEYS[10]) == match m.traceparent { case None => None case Some(t) => Some(Text(t)) }
    ensures ParseMeta(reg, Obj(fs)) == Some(m)
  {
    FieldsOfMeta(fs, m);
    AllTextsOf(m.permissions);
    RoleNamesDistinct(m.role, m.role);
    ParseMetaFrom(reg, fs, m);
  }

  lemma MetaRoundTrip(reg: Registry, m: Meta)
    requires Acceptable(reg, m)
    ensures ParseMeta(reg, MetaValue(m)) == Some(m)
  {
    MetaGets(m);
    ParseMetaFields(reg, Record(MetaKeys(m), MetaValues(m)), m);
  }

  // ---------- JSON text leaves JSON values alone ----------

  lemma {:induction false} ProjectJson(v: Value)
    requires IsJson(v)
    ensures Project(v) == v
  {
    match v
    case Arr(items) => ProjectJsonItems(items);
    case Obj(fields) => ProjectJsonFields(fields);
    case _ =>
  }

  lemma {:induction false} ProjectJsonItems(items: seq<Value>)
    requires forall i | 0 <= i < |items| :: IsJson(items[i])
    ensures ProjectItems(items) == items
  {
    if items != [] {
      ProjectJson(items[0]);
      ProjectJsonItems(items[1..]);
    }
  }

  lemma {:induction false} ProjectJsonFields(fs: seq<Field>)
    requires forall i | 0 <= i < |fs| :: IsJson(fs[i].value)
    ensures ProjectFields(fs) == fs
  {
    if fs != [] {
      ProjectJson(fs[0].value);
      ProjectJsonFields(fs[1..]);
    }
  }

  lemma Decoded(v: Value)
    requires Valid(v) && !v.Undefined? && !v.Function?
    ensures OnTheWire(v) == Some(Project(v)) && IsJson(Project(v))
  {
    ProjectIsJson(v);
    ParsePrint(Project(v));
  }

  lemma MetaIsJson(m: Meta)
    ensures IsJson(MetaValue(m))
  {
    MetaKeysDistinct();
    RecordOrder(MetaKeys(m), MetaValues(m));
    forall i | 0 <= i < |MetaValues(m)| ensures IsJson(MetaValues(m)[i]) {
    }
  }

  /** Projecting a record of writable values projects each value and keeps every key. */
  lemma {:induction false} ProjectWritable(fs: seq<Field>)
    requires forall i | 0 <= i < |fs| :: !fs[i].value.Undefined? && !fs[i].value.Function?
    ensures |ProjectFields(fs)| == |fs|
    ensures forall i | 0 <= i < |fs| :: ProjectFields(fs)[i] == Field(fs[i].key, Project(fs[i].value))
  {
    if fs != [] {
      ProjectWritable(fs[1..]);
    }
  }

  lemma ProjectRecord(keys: seq<Str>, values: seq<Value>, projected: seq<Value>)
    requires |keys| == |values| == |projected|
    requires forall i | 0 <= i < |values| ::
      !values[i].Undefined? && !values[i].Function? && projected[i] == Project(values[i])
    ensures Project(Obj(Record(keys, values))) == Obj(Record(keys, projected))
  {
    ProjectWritable(Record(keys, values));
    assert ProjectFields(Record(keys, values)) == Record(keys, projected);
  }

  // ---------- envelopes ----------

  const ENVELOPE_SHAPE: seq<Str> := [Lit("meta"), Lit("payload"), Lit("signature")]

  function EnvelopeValue(e: Envelope): Value {
    Obj(Record(ENVELOPE_SHAPE, [MetaValue(e.meta), e.payload, Text(e.signature)]))
  }

  /** envelope.safeParse. `payload` is z.unknown(): a missing one is undefined. */
  function ParseEnvelope(reg: Registry, v: Value): Option<Envelope> {
    if !v.Obj? then None
    else
      var signature := TextAt(v.fields, ENVELOPE_SHAPE[2]);
      match Get(v.fields, ENVELOPE_SHAPE[0])
      case None => None
      case Some(metaValue) =>
        var meta := ParseMeta(reg, metaValue);
        if meta.Some? && signature.Some? && |signature.value| >= 16 then
          Some(Envelope(meta.value,
                        match Get(v.fields, ENVELOPE_SHAPE[1]) { case None => Undefined case Some(p) => p },
                        signature.value))
        else None
  }

  lemma EnvelopeShapeDistinct()
    ensures RecordKeys(ENVELOPE_SHAPE)
  {
    assert Mark(Lit("meta")) == 0x40065 && Mark(Lit("payload")) == 0x70061 && Mark(Lit("signature")) == 0x90069;
  }

  lemma EnvelopeShapeRoundTrip(reg: Registry, e: Envelope)
    requires Acceptable(reg, e.meta) && |e.signature| >= 16
    ensures ParseEnvelope(reg, EnvelopeValue(e)) == Some(e)
  {
    EnvelopeShapeDistinct();
    var values := [MetaValue(e.meta), e.payload, Text(e.signature)];
    GetRecord(ENVELOPE_SHAPE, values, 0);
    GetRecord(ENVELOPE_SHAPE, values, 1);
    GetRecord(ENVELOPE_SHAPE, values, 2);
    MetaRoundTrip(reg, e.meta);
  }

  lemma EnvelopeProjected(e: Envelope)
    ensures Project(EnvelopeValue(e))
         == Obj(Record(ENVELOPE_SHAPE, [MetaValue(e.meta), Project(e.payload), Text(e.signature)]))
      || e.payload.Undefined? || e.payload.Function?
  {
    if !e.payload.Undefined? && !e.payload.Function? {
      MetaIsJson(e.meta);
      ProjectJson(MetaValue(e.meta));
      ProjectRecord(ENVELOPE_SHAPE, [MetaValue(e.meta), e.payload, Text(e.signature)],
                    [MetaValue(e.meta), Project(e.payload), Text(e.signature)]);
    }
  }

  lemma EnvelopeValid(e: Envelope)
    requires Valid(e.payload) && !Unsignable(e.payload)
    ensures Valid(EnvelopeValue(e))
  {
    EnvelopeShapeDistinct();
    MetaIsJson(e.meta);
    JsonIsValid(MetaValue(e.meta));
    RecordValid(ENVELOPE_SHAPE, [MetaValue(e.meta), e.payload, Text(e.signature)]);
  }

  /** A signable envelope arrives as it was sent, but for its payload's JSON image. */
  lemma EnvelopeArrives(e: Envelope)
    requires Valid(e.payload) && !Unsignable(e.payload)
    ensures OnTheWire(EnvelopeValue(e)) == Some(EnvelopeValue(e.(payload := Project(e.payload))))
    ensures Valid(EnvelopeValue(e.(payload := Project(e.payload))))
  {
    EnvelopeValid(e);
    Decoded(EnvelopeValue(e));
    EnvelopeProjected(e);
    JsonIsValid(Project(EnvelopeValue(e)));
  }

  /** Its receiver parses the same meta and signature out of it. */
  lemma EnvelopeOverTheWire(reg: Registry, e: Envelope)
    requires Acceptable(reg, e.meta) && |e.signature| >= 16
    requires Valid(e.payload) && !Unsignable(e.payload)
    ensures OnTheWire(EnvelopeValue(e)).Some?
    ensures ParseEnvelope(reg, OnTheWire(EnvelopeValue(e)).value) == Some(e.(payload := Project(e.payload)))
  {
    EnvelopeArrives(e);
    EnvelopeShapeRoundTrip(reg, e.(payload := Project(e.payload)));
  }

  /** The signature a message carries, envelope or reply. */
  function SignatureOf(v: Value): Option<Str> {
    if v.Obj? then TextAt(v.fields, ENVELOPE_SHAPE[2]) else None
  }

  lemma EnvelopeSignature(e: Envelope)
    ensures SignatureOf(EnvelopeValue(e)) == Some(e.signature)
  {
    EnvelopeShapeDistinct();
    GetRecord(ENVELOPE_SHAPE, [MetaValue(e.meta), e.payload, Text(e.signature)], 2);
  }

  lemma EnvelopeKeepsSignature(e: Envelope)
    requires Valid(e.payload) && !Unsignable(e.payload)
    ensures OnTheWire(EnvelopeValue(e)).Some? && Valid(OnTheWire(EnvelopeValue(e)).value)
    ensures SignatureOf(OnTheWire(EnvelopeValue(e)).value) == Some(e.signature)
  {
    EnvelopeArrives(e);
    EnvelopeSignature(e.(payload := Project(e.payload)));
  }

  // ---------- replies ----------

  const ERROR_SHAPE: seq<Str> := [Lit("code"), Lit("message"), Lit("data")]

  /** The error object a refusal signs: no `data` key when there is no data. */
  function ErrorValue(e: ErrorBody): Value {
    if e.data.Undefined? then Obj(Record(ERROR_SHAPE[..2], [Text(e.code), Text(e.message)]))
    else Obj(Record(ERROR_SHAPE, [Text(e.code), Text(e.message), e.data]))
  }

  /** What a reply's signature covers beside its binding. */
  function Answered(r: Reply): Value {
    match r
    case Success(_, _, data) => data
    case Refusal(_, _, error) => ErrorValue(error)
  }

  const SUCCESS_SHAPE: seq<Str> := [Lit("ok"), Lit("requestId"), Lit("signature"), Lit("data")]
  const REFUSAL_SHAPE: seq<Str> := [Lit("ok"), Lit("requestId"), Lit("signature"), Lit("error")]

  function ReplyValue(r: Reply): Value {
    Obj(Record(if r.Success? then SUCCESS_SHAPE else REFUSAL_SHAPE,
               [Bool(r.Success?), Text(r.requestId), Text(r.signature), Answered(r)]))
  }

  function OrUndefined(v: Option<Value>): Value {
    match v
    case None => Undefined
    case Some(x) => x
  }

  function ParseError(v: Value): Option<ErrorBody> {
    if !v.Obj? then None
    else
      var code, message := TextAt(v.fields, ERROR_SHAPE[0]), TextAt(v.fields, ERROR_SHAPE[1]);
      if code.Some? && message.Some?
      then Some(ErrorBody(code.value, message.value, OrUndefined(Get(v.fields, ERROR_SHAPE[2]))))
      else None
  }

  /** replyEnvelope.safeParse, discriminated on `ok`. */
  function ParseReply(v: Value): Option<Reply> {
    if !v.Obj? then None
    else
      var requestId, signature := TextAt(v.fields, SUCCESS_SHAPE[1]), TextAt(v.fields, SUCCESS_SHAPE[2]);
      if !(requestId.Some? && requestId.value != [] && signature.Some? && |signature.value| >= 16) then None
      else
        match Get(v.fields, SUCCESS_SHAPE[0])
        case Some(Bool(true)) =>
          Some(Success(requestId.value, signature.value, OrUndefined(Get(v.fields, SUCCESS_SHAPE[3]))))
        case Some(Bool(false)) =>
          (match Get(v.fields, REFUSAL_SHAPE[3])
           case None => None
           case Some(e) =>
             match ParseError(e)
             case None => None
             case Some(error) => Some(Refusal(requestId.value, signature.value, error)))
        case _ => None
  }

  lemma ReplyMarks()
    ensures Mark(Lit("ok")) == 0x2006B && Mark(Lit("requestId")) == 0x90065 && Mark(Lit("signature")) == 0x90069
    ensures Mark(Lit("data")) == 0x40061 && Mark(Lit("error")) == 0x50072
    ensures Mark(Lit("code")) == 0x4006F && Mark(Lit("message")) == 0x70065
  {
  }

  lemma ErrorShapeDistinct()
    ensures RecordKeys(ERROR_SHAPE) && RecordKeys(ERROR_SHAPE[..2]) && ERROR_SHAPE[2] !in ERROR_SHAPE[..2]
  {
    ReplyMarks();
  }

  lemma ReplyShapesDistinct()
    ensures RecordKeys(SUCCESS_SHAPE) && RecordKeys(REFUSAL_SHAPE)
    ensures RecordKeys(ERROR_SHAPE) && RecordKeys(ERROR_SHAPE[..2]) && ERROR_SHAPE[2] !in ERROR_SHAPE[..2]
  {
    ReplyMarks();
    ErrorShapeDistinct();
  }

  lemma ErrorRoundTrip(e: ErrorBody)
    ensures ParseError(ErrorValue(e)) == Some(e)
  {
    ReplyShapesDistinct();
    if e.data.Undefined? {
      var values := [Text(e.code), Text(e.message)];
      GetRecord(ERROR_SHAPE[..2], values, 0);
      GetRecord(ERROR_SHAPE[..2], values, 1);
      GetNoRecord(ERROR_SHAPE[..2], values, ERROR_SHAPE[2]);
    } else {
      var values := [Text(e.code), Text(e.message), e.data];
      GetRecord(ERROR_SHAPE, values, 0);
      GetRecord(ERROR_SHAPE, values, 1);
      GetRecord(ERROR_SHAPE, values, 2);
    }
  }

  lemma ReplyRoundTrip(r: Reply)
    requires r.requestId != [] && |r.signature| >= 16
    ensures ParseReply(ReplyValue(r)) == Some(r)
  {
    ReplyShapesDistinct();
    var keys := if r.Success? then SUCCESS_SHAPE else REFUSAL_SHAPE;
    var values := [Bool(r.Success?), Text(r.requestId), Text(r.signature), Answered(r)];
    GetRecord(keys, values, 0);
    GetRecord(keys, values, 1);
    GetRecord(keys, values, 2);
    GetRecord(keys, values, 3);
    if r.Refusal? {
      ErrorRoundTrip(r.error);
    }
  }

  /** A reply as its receiver parses it. */
  function Received(r: Reply): Reply {
    match r
    case Success(_, _, data) => r.(data := Project(data))
    case Refusal(_, _, error) =>
      if error.data.Undefined? then r else r.(error := error.(data := Project(error.data)))
  }

  lemma ProjectAnswered(r: Reply)
    requires Valid(Answered(r)) && !Unsignable(Answered(r))
    ensures Project(Answered(r)) == Answered(Received(r))
  {
    ReplyShapesDistinct();
    match r
    case Success(_, _, data) =>
    case Refusal(_, _, error) =>
      if error.data.Undefined? {
        var values := [Text(error.code), Text(error.message)];
        ProjectRecord(ERROR_SHAPE[..2], values, values);
      } else {
        var values := [Text(error.code), Text(error.message), error.data];
        assert Record(ERROR_SHAPE, values)[2].value == error.data;
        assert !Unsignable(error.data);
        ProjectRecord(ERROR_SHAPE, values, [Text(error.code), Text(error.message), Project(error.data)]);
        assert !Project(error.data).Undefined?;
      }
  }

  function ReplyKeysOf(r: Reply): (keys: seq<Str>)
    ensures |keys| == 4
  {
    if r.Success? then SUCCESS_SHAPE else REFUSAL_SHAPE
  }

  lemma ReplyProjected(r: Reply)
    requires Valid(Answered(r)) && !Unsignable(Answered(r))
    ensures Project(ReplyValue(r)) == ReplyValue(Received(r))
  {
    ProjectAnswered(r);
    assert ReplyKeysOf(Received(r)) == ReplyKeysOf(r);
    ProjectRecord(ReplyKeysOf(r), [Bool(r.Success?), Text(r.requestId), Text(r.signature), Answered(r)],
                  [Bool(r.Success?), Text(r.requestId), Text(r.signature), Project(Answered(r))]);
  }

  lemma ReplyValid(r: Reply)
    requires Valid(Answered(r)) && !Unsignable(Answered(r))
    ensures Valid(ReplyValue(r))
  {
    ReplyShapesDistinct();
    RecordValid(ReplyKeysOf(r), [Bool(r.Success?), Text(r.requestId), Text(r.signature), Answered(r)]);
  }

  /** A signable reply arrives as it was sent, but for its body's JSON image. */
  lemma ReplyArrives(r: Reply)
    requires Valid(Answered(r)) && !Unsignable(Answered(r))
    ensures OnTheWire(ReplyValue(r)) == Some(ReplyValue(Received(r))) && Valid(ReplyValue(Received(r)))
  {
    ReplyValid(r);
    Decoded(ReplyValue(r));
    ReplyProjected(r);
    JsonIsValid(Project(ReplyValue(r)));
  }

  lemma ReplyOverTheWire(r: Reply)
    requires r.requestId != [] && |r.signature| >= 16
    requires Valid(Answered(r)) && !Unsignable(Answered(r))
    ensures OnTheWire(ReplyValue(r)).Some?
    ensures ParseReply(OnTheWire(ReplyValue(r)).value) == Some(Received(r))
  {
    ReplyArrives(r);
    ReplyRoundTrip(Received(r));
  }

  lemma ReplySignature(r: Reply)
    ensures SignatureOf(ReplyValue(r)) == Some(r.signature)
  {
    ReplyShapesDistinct();
    GetRecord(ReplyKeysOf(r), [Bool(r.Success?), Text(r.requestId), Text(r.signature), Answered(r)], 2);
  }

  lemma ReplyKeepsSignature(r: Reply)
    requires Valid(Answered(r)) && !Unsignable(Answered(r))
    ensures OnTheWire(ReplyValue(r)).Some? && Valid(OnTheWire(ReplyValue(r)).value)
    ensures SignatureOf(OnTheWire(ReplyValue(r)).value) == Some(r.signature)
  {
    ReplyArrives(r);
    ReplySignature(Received(r));
  }
}
