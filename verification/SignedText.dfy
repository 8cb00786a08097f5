/** The signed texts and the messages on the wire, spelled out key by key. */
module SignedText {
  import opened Prelude
  import opened Json
  import opened Canonical
  import opened CanonicalOrder
  import opened Registry
  import opened Envelopes
  import opened Wire

  // ---------- records listed in order ----------

  /** Up to k the keys agree, and there a is smaller. */
  lemma {:induction false} LessAt(a: Str, b: Str, k: nat)
    requires k < |a| && k < |b| && a[k] < b[k] && forall i | 0 <= i < k :: a[i] == b[i]
    ensures LexLe(a, b)
    decreases k
  {
    if k > 0 {
      assert a[1..][k - 1] == a[k] && b[1..][k - 1] == b[k];
      forall i | 0 <= i < k - 1 ensures a[1..][i] == b[1..][i] {
        assert a[i + 1] == b[i + 1];
      }
      LessAt(a[1..], b[1..], k - 1);
    }
  }

  ghost predicate EachLess(keys: seq<Str>) { forall i | 0 < i < |keys| :: LexLe(keys[i - 1], keys[i]) }

  lemma {:induction false} LessThrough(keys: seq<Str>, i: nat, j: nat)
    requires EachLess(keys) && i < j < |keys|
    ensures LexLe(keys[i], keys[j])
    decreases j
  {
    if i < j - 1 {
      LessThrough(keys, i, j - 1);
      LexLeTransitive(keys[i], keys[j - 1], keys[j]);
    }
  }

  lemma RecordAscends(keys: seq<Str>, values: seq<Value>)
    requires EachLess(keys) && |keys| == |values|
    ensures KeysAscend(Record(keys, values))
  {
    forall i, j | 0 <= i < j < |keys| ensures LexLe(keys[i], keys[j]) { LessThrough(keys, i, j); }
  }

  /** The same record with its keys in another order. */
  lemma SameListed(ks: seq<Str>, vs: seq<Value>, keys: seq<Str>, values: seq<Value>, place: seq<nat>)
    requires RecordKeys(ks) && RecordKeys(keys) && |ks| == |vs| == |keys| == |values| == |place|
    requires forall i | 0 <= i < |place| :: place[i] < |keys| && keys[place[i]] == ks[i] && values[place[i]] == vs[i]
    requires forall j | 0 <= j < |keys| :: keys[j] in ks
    requires forall i | 0 <= i < |vs| :: Same(vs[i], vs[i])
    ensures Same(Obj(Record(ks, vs)), Obj(Record(keys, values)))
  {
    var fs, gs := Record(ks, vs), Record(keys, values);
    RecordOrder(ks, vs);
    RecordOrder(keys, values);
    forall i | 0 <= i < |fs| ensures Get(gs, fs[i].key).Some? && Same(fs[i].value, Get(gs, fs[i].key).value) {
      GetAt(gs, place[i]);
      assert gs[place[i]].key == fs[i].key;
    }
    forall j | 0 <= j < |gs| ensures Get(fs, gs[j].key).Some? {
      var i :| 0 <= i < |ks| && ks[i] == keys[j];
      GetAt(fs, i);
    }
  }

  lemma ListedIsCanonical(v: Value, keys: seq<Str>, values: seq<Value>)
    requires Valid(v) && RecordKeys(keys) && |keys| == |values| && EachLess(keys)
    requires forall i | 0 <= i < |values| :: IsJson(values[i]) && Ascending(values[i])
    requires Same(v, Obj(Record(keys, values)))
    ensures CanonicalJson(v) == Some(Print(Obj(Record(keys, values))))
  {
    var w := Obj(Record(keys, values));
    RecordOrder(keys, values);
    RecordAscends(keys, values);
    CanonicalExactly(v, w);
  }

  // ---------- the signed text of an envelope ----------

  const SIGNED_KEYS: seq<Str> :=
    [ Lit("deadlineAt"), Lit("domain"), Lit("issuedAt"), Lit("keyId"), Lit("operation"), Lit("orgId"),
      Lit("payloadHash"), Lit("permissions"), Lit("plan"), Lit("requestId"), Lit("resource"), Lit("role"),
      Lit("traceparent"), Lit("userId") ]

  /** What stands under those keys; `held` are the permissions in ascending order. */
  function SignedValues(d: Domain, m: Meta, held: seq<Str>, payloadHash: Str): seq<Value> {
    [ Num(m.deadlineAt), Text(if d.Request? then Lit("request") else Lit("event")), Num(m.issuedAt), Text(Lit("v1")),
      Text(m.operation), Text(m.orgId), Text(payloadHash), Arr(Texts(held)), Text(m.plan), Text(m.requestId),
      Text(m.resource),
      Text(if m.role.Owner? then Lit("owner") else if m.role.Admin? then Lit("admin") else Lit("member")),
      match m.traceparent { case None => Null case Some(t) => Text(t) }, Text(m.userId) ]
  }

  lemma FirstKeysAscend()
    ensures LexLe(Lit("deadlineAt"), Lit("domain")) && LexLe(Lit("domain"), Lit("issuedAt"))
    ensures LexLe(Lit("issuedAt"), Lit("keyId")) && LexLe(Lit("keyId"), Lit("operation"))
    ensures LexLe(Lit("operation"), Lit("orgId")) && LexLe(Lit("orgId"), Lit("payloadHash"))
  {
    LessAt(Lit("deadlineAt"), Lit("domain"), 1);
    LessAt(Lit("domain"), Lit("issuedAt"), 0);
    LessAt(Lit("issuedAt"), Lit("keyId"), 0);
    LessAt(Lit("keyId"), Lit("operation"), 0);
    LessAt(Lit("operation"), Lit("orgId"), 1);
    LessAt(Lit("orgId"), Lit("payloadHash"), 0);
  }

  lemma LastKeysAscend()
    ensures LexLe(Lit("payloadHash"), Lit("permissions")) && LexLe(Lit("permissions"), Lit("plan"))
    ensures LexLe(Lit("plan"), Lit("requestId")) && LexLe(Lit("requestId"), Lit("resource"))
    ensures LexLe(Lit("resource"), Lit("role")) && LexLe(Lit("role"), Lit("traceparent"))
    ensures LexLe(Lit("traceparent"), Lit("userId"))
  {
    LessAt(Lit("payloadHash"), Lit("permissions"), 1);
    LessAt(Lit("permissions"), Lit("plan"), 1);
    LessAt(Lit("plan"), Lit("requestId"), 0);
    LessAt(Lit("requestId"), Lit("resource"), 2);
    LessAt(Lit("resource"), Lit("role"), 1);
    LessAt(Lit("role"), Lit("traceparent"), 0);
    LessAt(Lit("traceparent"), Lit("userId"), 0);
  }

  lemma SignedKeysAscend()
    ensures EachLess(SIGNED_KEYS)
  {
    FirstKeysAscend();
    LastKeysAscend();
  }

  lemma SignedKeys()
    ensures RecordKeys(SIGNED_KEYS)
  {
    assert Mark(Lit("domain")) == 0x6006F && Mark(Lit("keyId")) == 0x50065 && Mark(Lit("requestId")) == 0x90065;
    assert Mark(Lit("orgId")) == 0x50072 && Mark(Lit("userId")) == 0x60073 && Mark(Lit("role")) == 0x4006F;
    assert Mark(Lit("permissions")) == 0xB0065 && Mark(Lit("plan")) == 0x4006C;
    assert Mark(Lit("resource")) == 0x80065 && Mark(Lit("operation")) == 0x90070;
    assert Mark(Lit("issuedAt")) == 0x80073 && Mark(Lit("deadlineAt")) == 0xA0065;
    assert Mark(Lit("traceparent")) == 0xB0072 && Mark(Lit("payloadHash")) == 0xB0061;
  }

  /** Where each of the source's keys stands in the sorted list. */
  const SIGNED_PLACES: seq<nat> := [1, 3, 9, 5, 13, 11, 7, 8, 10, 4, 2, 0, 12, 6]

  lemma PlacedKeys(i: nat)
    requires i < 14
    ensures SIGNED_KEYS[SIGNED_PLACES[i]] == ENVELOPE_KEYS[i] && ENVELOPE_KEYS[i] in ENVELOPE_KEYS
  {
  }

  lemma PlacedValues(d: Domain, m: Meta, held: seq<Str>, h: Str, i: nat)
    requires i < 14 && held == Sort(LexLe, m.permissions)
    ensures SignedValues(d, m, held, h)[SIGNED_PLACES[i]] == EnvelopeValues(d, m, h)[i]
  {
    if i < 5 {
      FirstValues(d, m, held, h, i);
    } else if i < 10 {
      MiddleValues(d, m, held, h, i);
    } else {
      LastValues(d, m, held, h, i);
    }
  }

  lemma FirstValues(d: Domain, m: Meta, held: seq<Str>, h: Str, i: nat)
    requires i < 5
    ensures SignedValues(d, m, held, h)[SIGNED_PLACES[i]] == EnvelopeValues(d, m, h)[i]
  {
  }

  lemma MiddleValues(d: Domain, m: Meta, held: seq<Str>, h: Str, i: nat)
    requires 5 <= i < 10 && held == Sort(LexLe, m.permissions)
    ensures SignedValues(d, m, held, h)[SIGNED_PLACES[i]] == EnvelopeValues(d, m, h)[i]
  {
  }

  lemma LastValues(d: Domain, m: Meta, held: seq<Str>, h: Str, i: nat)
    requires 10 <= i < 14
    ensures SignedValues(d, m, held, h)[SIGNED_PLACES[i]] == EnvelopeValues(d, m, h)[i]
  {
  }

  lemma KeysListed(j: nat)
    requires j < 14
    ensures SIGNED_KEYS[j] in ENVELOPE_KEYS
  {
    var back: seq<nat> := [11, 0, 10, 1, 9, 3, 13, 6, 7, 2, 8, 5, 12, 4];
    assert ENVELOPE_KEYS[back[j]] == SIGNED_KEYS[j];
  }

  lemma SortedPermissions(m: Meta, held: seq<Str>)
    requires Sorted(LexLe, held) && multiset(held) == multiset(m.permissions)
    ensures held == Sort(LexLe, m.permissions)
  {
    LexLeIsOrder();
    SortCorrect(LexLe, m.permissions);
    forall i, j | 0 <= i < |held| && 0 <= j < |held| && LexLe(held[i], held[j]) && LexLe(held[j], held[i])
      ensures held[i] == held[j]
    {
      LexLeTotal(held[i], held[j]);
    }
    SortedUnique(LexLe, held, Sort(LexLe, m.permissions));
  }

  lemma ListedEnvelope(d: Domain, m: Meta, held: seq<Str>, h: Str)
    requires held == Sort(LexLe, m.permissions)
    ensures Same(EnvelopeRecord(d, m, h), Obj(Record(SIGNED_KEYS, SignedValues(d, m, held, h))))
  {
    EnvelopeKeys();
    SignedKeys();
    EnvelopeValuesValid(d, m, h);
    forall i | 0 <= i < 14 ensures Same(EnvelopeValues(d, m, h)[i], EnvelopeValues(d, m, h)[i]) {
      SameReflexive(EnvelopeValues(d, m, h)[i]);
    }
    forall i | 0 <= i < 14
      ensures SIGNED_PLACES[i] < 14 && SIGNED_KEYS[SIGNED_PLACES[i]] == ENVELOPE_KEYS[i]
      ensures SignedValues(d, m, held, h)[SIGNED_PLACES[i]] == EnvelopeValues(d, m, h)[i]
    {
      PlacedKeys(i);
      PlacedValues(d, m, held, h, i);
    }
    forall j | 0 <= j < 14 ensures SIGNED_KEYS[j] in ENVELOPE_KEYS { KeysListed(j); }
    SameListed(ENVELOPE_KEYS, EnvelopeValues(d, m, h), SIGNED_KEYS, SignedValues(d, m, held, h), SIGNED_PLACES);
  }

  lemma SignedValuesJson(d: Domain, m: Meta, held: seq<Str>, h: Str, i: nat)
    requires i < 14
    ensures IsJson(SignedValues(d, m, held, h)[i]) && Ascending(SignedValues(d, m, held, h)[i])
  {
  }

  /**
   * The bytes a request or an event signature covers: an object of these fourteen keys in this order, with
   * the permissions ascending and the hash of the payload's canonical text.
   */
  lemma EnvelopeListed(c: Crypto, d: Domain, m: Meta, payload: Value, held: seq<Str>)
    requires Sorted(LexLe, held) && multiset(held) == multiset(m.permissions) && CanonicalJson(payload).Some?
    ensures CanonicalEnvelope(c, d, m, payload)
         == Some(Print(Obj(Record(SIGNED_KEYS, SignedValues(d, m, held, c.sha(CanonicalJson(payload).value))))))
  {
    var h := c.sha(CanonicalJson(payload).value);
    SortedPermissions(m, held);
    EnvelopeRecordValid(d, m, h);
    ListedEnvelope(d, m, held, h);
    SignedKeys();
    SignedKeysAscend();
    forall i | 0 <= i < 14 ensures IsJson(SignedValues(d, m, held, h)[i]) && Ascending(SignedValues(d, m, held, h)[i]) {
      SignedValuesJson(d, m, held, h, i);
    }
    ListedIsCanonical(EnvelopeRecord(d, m, h), SIGNED_KEYS, SignedValues(d, m, held, h));
  }

  // ---------- the signed text of a reply ----------

  const ANSWERED_KEYS: seq<Str> :=
    [Lit("dataHash"), Lit("keyId"), Lit("ok"), Lit("operation"), Lit("requestId"), Lit("resource")]

  function AnsweredValues(b: Binding, dataHash: Str): seq<Value> {
    [ Text(dataHash), Text(Lit("v1")), Bool(b.ok), Text(b.operation), Text(b.requestId), Text(b.resource) ]
  }

  lemma AnsweredKeys()
    ensures RecordKeys(ANSWERED_KEYS)
  {
    assert Mark(Lit("keyId")) == 0x50065 && Mark(Lit("requestId")) == 0x90065 && Mark(Lit("resource")) == 0x80065;
    assert Mark(Lit("operation")) == 0x90070 && Mark(Lit("ok")) == 0x2006B && Mark(Lit("dataHash")) == 0x80061;
  }

  lemma AnsweredKeysAscend()
    ensures EachLess(ANSWERED_KEYS)
  {
    LessAt(Lit("dataHash"), Lit("keyId"), 0);
    LessAt(Lit("keyId"), Lit("ok"), 0);
    LessAt(Lit("ok"), Lit("operation"), 1);
    LessAt(Lit("operation"), Lit("requestId"), 0);
    LessAt(Lit("requestId"), Lit("resource"), 2);
  }

  const ANSWERED_PLACES: seq<nat> := [1, 4, 5, 3, 2, 0]

  lemma PlacedAnswers(b: Binding, h: Str, i: nat)
    requires i < 6
    ensures ANSWERED_KEYS[ANSWERED_PLACES[i]] == REPLY_KEYS[i]
    ensures AnsweredValues(b, h)[ANSWERED_PLACES[i]] == ReplyValues(b, h)[i]
    ensures Same(ReplyValues(b, h)[i], ReplyValues(b, h)[i])
  {
  }

  lemma AnswersListed(j: nat)
    requires j < 6
    ensures ANSWERED_KEYS[j] in REPLY_KEYS
  {
    var back: seq<nat> := [5, 0, 4, 3, 1, 2];
    assert REPLY_KEYS[back[j]] == ANSWERED_KEYS[j];
  }

  lemma ListedReply(b: Binding, h: Str)
    ensures Same(ReplyRecord(b, h), Obj(Record(ANSWERED_KEYS, AnsweredValues(b, h))))
  {
    ReplyKeys();
    AnsweredKeys();
    forall i | 0 <= i < 6
      ensures ANSWERED_PLACES[i] < 6 && ANSWERED_KEYS[ANSWERED_PLACES[i]] == REPLY_KEYS[i]
      ensures AnsweredValues(b, h)[ANSWERED_PLACES[i]] == ReplyValues(b, h)[i]
      ensures Same(ReplyValues(b, h)[i], ReplyValues(b, h)[i])
    {
      PlacedAnswers(b, h, i);
    }
    forall j | 0 <= j < 6 ensures ANSWERED_KEYS[j] in REPLY_KEYS { AnswersListed(j); }
    SameListed(REPLY_KEYS, ReplyValues(b, h), ANSWERED_KEYS, AnsweredValues(b, h), ANSWERED_PLACES);
  }

  /** The bytes a reply's signature covers. */
  lemma ReplyListed(c: Crypto, b: Binding, body: Value)
    requires CanonicalJson(body).Some?
    ensures CanonicalReply(c, b, body)
         == Some(Print(Obj(Record(ANSWERED_KEYS, AnsweredValues(b, c.sha(CanonicalJson(body).value))))))
  {
    var h := c.sha(CanonicalJson(body).value);
    ReplyRecordValid(b, h);
    ListedReply(b, h);
    AnsweredKeys();
    AnsweredKeysAscend();
    ListedIsCanonical(ReplyRecord(b, h), ANSWERED_KEYS, AnsweredValues(b, h));
  }

  /** Signatures: the keyed digest of those bytes. */
  lemma SignaturesAreMacs(c: Crypto, secret: Str, m: Meta, payload: Value, b: Binding, held: seq<Str>)
    requires Sorted(LexLe, held) && multiset(held) == multiset(m.permissions) && CanonicalJson(payload).Some?
    ensures var h := c.sha(CanonicalJson(payload).value);
      && SignRequest(c, secret, m, payload)
         == Some(c.mac(secret, Print(Obj(Record(SIGNED_KEYS, SignedValues(Request, m, held, h))))))
      && SignEvent(c, secret, m, payload)
         == Some(c.mac(secret, Print(Obj(Record(SIGNED_KEYS, SignedValues(Event, m, held, h))))))
      && SignReply(c, secret, b, payload)
         == Some(c.mac(secret, Print(Obj(Record(ANSWERED_KEYS, AnsweredValues(b, h))))))
  {
    EnvelopeListed(c, Request, m, payload, held);
    EnvelopeListed(c, Event, m, payload, held);
    ReplyListed(c, b, payload);
  }

  // ---------- the wire ----------

  function MaybeField(key: Str, text: Option<Str>): seq<Field> {
    match text
    case None => []
    case Some(t) => [Field(key, Text(t))]
  }

  /** An envelope as JSON.stringify is given it. */
  lemma EnvelopeSpelled(e: Envelope)
    ensures EnvelopeValue(e)
         == Obj([ Field(Lit("meta"), MetaValue(e.meta)), Field(Lit("payload"), e.payload),
                  Field(Lit("signature"), Text(e.signature)) ])
    ensures var m := e.meta;
      MetaValue(m)
      == Obj([ Field(Lit("requestId"), Text(m.requestId)), Field(Lit("orgId"), Text(m.orgId)),
               Field(Lit("userId"), Text(m.userId)), Field(Lit("role"), Text(RoleName(m.role))),
               Field(Lit("permissions"), Arr(Texts(m.permissions))), Field(Lit("plan"), Text(m.plan)),
               Field(Lit("resource"), Text(m.resource)), Field(Lit("operation"), Text(m.operation)),
               Field(Lit("issuedAt"), Num(m.issuedAt)), Field(Lit("deadlineAt"), Num(m.deadlineAt)) ]
             + MaybeField(Lit("traceparent"), m.traceparent))
  {
  }

  /** An error as JSON.stringify is given it: no `data` key where there is none. */
  lemma ErrorSpelled(e: ErrorBody)
    ensures ErrorValue(e)
         == Obj([ Field(Lit("code"), Text(e.code)), Field(Lit("message"), Text(e.message)) ]
                + if e.data.Undefined? then [] else [Field(Lit("data"), e.data)])
  {
  }

  /** A reply as JSON.stringify is given it. */
  lemma ReplySpelled(r: Reply)
    ensures ReplyValue(r)
         == Obj([ Field(Lit("ok"), Bool(r.Success?)), Field(Lit("requestId"), Text(r.requestId)),
                  Field(Lit("signature"), Text(r.signature)) ]
                + if r.Success? then [Field(Lit("data"), r.data)] else [Field(Lit("error"), ErrorValue(r.error))])
  {
  }

  // ---------- what the schemas let in ----------

  lemma {:induction false} TextsExactly(items: seq<Value>, xs: seq<Str>)
    ensures AllTexts(items) == Some(xs) <==> items == Texts(xs)
    decreases |items|
  {
    AllTextsOf(xs);
    if items != [] {
      var rest := AllTexts(items[1..]);
      if rest.Some? {
        TextsExactly(items[1..], rest.value);
      }
      if AllTexts(items) == Some(xs) {
        assert Texts(xs)[1..] == Texts(xs[1..]);
        assert items == [items[0]] + items[1..] && Texts(xs) == [Texts(xs)[0]] + Texts(xs)[1..];
      }
    }
  }

  /** The meta schema accepts exactly these objects, whatever else is in them. */
  lemma MetaExactly(reg: Registry, v: Value, m: Meta)
    ensures ParseMeta(reg, v) == Some(m) <==>
      && v.Obj?
      && Get(v.fields, Lit("requestId")) == Some(Text(m.requestId)) && |m.requestId| >= 8
      && Get(v.fields, Lit("orgId")) == Some(Text(m.orgId)) && |m.orgId| >= 1
      && Get(v.fields, Lit("userId")) == Some(Text(m.userId)) && |m.userId| >= 1
      && Get(v.fields, Lit("role")) == Some(Text(RoleName(m.role)))
      && Get(v.fields, Lit("permissions")) == Some(Arr(Texts(m.permissions)))
      && Get(v.fields, Lit("plan")) == Some(Text(m.plan)) && m.plan in reg.plans
      && Get(v.fields, Lit("resource")) == Some(Text(m.resource)) && FindResource(reg.resources, m.resource).Some?
      && Get(v.fields, Lit("operation")) == Some(Text(m.operation)) && m.operation in reg.operations
      && Get(v.fields, Lit("issuedAt")) == Some(Num(m.issuedAt)) && SafeInteger(m.issuedAt)
      && Get(v.fields, Lit("deadlineAt")) == Some(Num(m.deadlineAt)) && SafeInteger(m.deadlineAt)
      && (Get(v.fields, Lit("traceparent"))
          == match m.traceparent { case None => None case Some(t) => Some(Text(t)) })
  {
    if v.Obj? {
      var fs := v.fields;
      var permissions := Get(fs, Lit("permissions"));
      if permissions.Some? && permissions.value.Arr? {
        TextsExactly(permissions.value.items, m.permissions);
      }
      RoleNamesDistinct(m.role, m.role);
      RoleRead(fs, m.role);
    }
  }

  lemma RoleRead(fs: seq<Field>, role: Role)
    ensures RoleAt(fs, Lit("role")) == Some(role) <==> Get(fs, Lit("role")) == Some(Text(RoleName(role)))
  {
    RoleNamesDistinct(role, Member);
    RoleNamesDistinct(role, Admin);
    RoleNamesDistinct(role, Owner);
  }

  /** The envelope schema: a meta, a signature of sixteen or more, and any payload or none. */
  lemma EnvelopeExactly(reg: Registry, v: Value, e: Envelope)
    ensures ParseEnvelope(reg, v) == Some(e) <==>
      && v.Obj?
      && Get(v.fields, Lit("meta")).Some? && ParseMeta(reg, Get(v.fields, Lit("meta")).value) == Some(e.meta)
      && Get(v.fields, Lit("signature")) == Some(Text(e.signature)) && |e.signature| >= 16
      && e.payload == match Get(v.fields, Lit("payload")) { case None => Undefined case Some(p) => p }
  {
  }

  /** The reply schema: told by `ok`, a success with any data or none, a refusal with an error that has two texts. */
  lemma ReplyExactly(v: Value, r: Reply)
    ensures ParseReply(v) == Some(r) <==>
      && v.Obj?
      && Get(v.fields, Lit("ok")) == Some(Bool(r.Success?))
      && Get(v.fields, Lit("requestId")) == Some(Text(r.requestId)) && |r.requestId| >= 1
      && Get(v.fields, Lit("signature")) == Some(Text(r.signature)) && |r.signature| >= 16
      && (r.Success? ==> r.data == match Get(v.fields, Lit("data")) { case None => Undefined case Some(d) => d })
      && (r.Refusal? ==>
            && Get(v.fields, Lit("error")).Some? && Get(v.fields, Lit("error")).value.Obj?
            && var fs := Get(v.fields, Lit("error")).value.fields;
               && Get(fs, Lit("code")) == Some(Text(r.error.code))
               && Get(fs, Lit("message")) == Some(Text(r.error.message))
               && r.error.data == match Get(fs, Lit("data")) { case None => Undefined case Some(d) => d })
  {
  }
}
