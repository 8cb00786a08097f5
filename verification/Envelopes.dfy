/** Envelopes and replies: the bytes their signatures cover, their JSON shapes, and their freshness. */
module Envelopes {
  import opened Prelude
  import opened Json
  import opened Canonical
  import opened Registry

  // ---------- cryptography, idealised ----------

  /** sha256 over a text, and HMAC over a secret and a text. */
  datatype Crypto = Crypto(sha: Str -> Str, mac: (Str, Str) -> Str)

  ghost predicate ShaInjective(c: Crypto) {
    forall a: Str, b: Str :: c.sha(a) == c.sha(b) ==> a == b
  }

  ghost predicate MacInjective(c: Crypto) {
    forall s: Str, a: Str, t: Str, b: Str :: c.mac(s, a) == c.mac(t, b) ==> s == t && a == b
  }

  /** No collisions, and a digest long enough for the schemas. */
  ghost predicate Ideal(c: Crypto) {
    && ShaInjective(c)
    && MacInjective(c)
    && forall s: Str, a: Str :: |c.mac(s, a)| >= 16
  }

  function Repeat(n: nat, u: CodeUnit): Str { seq(n, _ => u) }

  /** A text from which secret and message can both be read back: the secret's length in ones comes first. */
  function Tagged(secret: Str, text: Str): Str { Repeat(16, 0) + Repeat(|secret|, 1) + [0] + secret + text }

  lemma TaggedAt(secret: Str, text: Str, k: nat)
    ensures k <= |secret| ==> Tagged(secret, text)[16 + k] == if k < |secret| then 1 else 0
  {
  }

  lemma TaggedInjective(s: Str, a: Str, t: Str, b: Str)
    requires Tagged(s, a) == Tagged(t, b)
    ensures s == t && a == b
  {
    var x, y := Tagged(s, a), Tagged(t, b);
    TaggedAt(s, a, |t|);
    TaggedAt(s, a, |s|);
    TaggedAt(t, b, |s|);
    TaggedAt(t, b, |t|);
    assert x[17 + |s|..][..|s|] == s && y[17 + |t|..][..|t|] == t;
    assert x[17 + 2 * |s|..] == a && y[17 + 2 * |t|..] == b;
  }

  /** The hypothesis of every theorem about signatures can be met. */
  lemma IdealExists() returns (c: Crypto)
    ensures Ideal(c)
  {
    c := Crypto((a: Str) => a, (s: Str, a: Str) => Tagged(s, a));
    forall s: Str, a: Str, t: Str, b: Str | c.mac(s, a) == c.mac(t, b) ensures s == t && a == b {
      TaggedInjective(s, a, t, b);
    }
  }

  // ---------- entities ----------

  datatype Meta = Meta(
    requestId: Str, orgId: Str, userId: Str, role: Role, permissions: seq<Str>, plan: Str,
    resource: Str, operation: Str, issuedAt: Moment, deadlineAt: Moment, traceparent: Option<Str>)

  /** What a receiver has after the schema: a payload that was not sent is undefined. */
  datatype Envelope = Envelope(meta: Meta, payload: Value, signature: Str)

  datatype Domain = Request | Event

  datatype Binding = Binding(requestId: Str, resource: Str, operation: Str, ok: bool)

  /** `data` is undefined when the error carries none. */
  datatype ErrorBody = ErrorBody(code: Str, message: Str, data: Value)

  datatype Reply =
    | Success(requestId: Str, signature: Str, data: Value)
    | Refusal(requestId: Str, signature: Str, error: ErrorBody)

  // ---------- records ----------

  /** An object literal: fixed keys, in the order written. */
  function Record(keys: seq<Str>, values: seq<Value>): (r: seq<Field>)
    requires |keys| == |values|
    ensures |r| == |keys| && forall i | 0 <= i < |r| :: r[i] == Field(keys[i], values[i])
  {
    seq(|keys|, i requires 0 <= i < |keys| => Field(keys[i], values[i]))
  }

  /** Enough of a literal key to tell it from the others of its record. */
  function Mark(key: Str): int {
    if |key| < 2 || IsDigit(key[0]) then -1 else |key| * 0x10000 + key[1]
  }

  ghost predicate RecordKeys(keys: seq<Str>) {
    && (forall i | 0 <= i < |keys| :: Mark(keys[i]) >= 0)
    && (forall i, j | 0 <= i < j < |keys| :: Mark(keys[i]) != Mark(keys[j]))
  }

  /** No literal key is an array index, so a record is enumerated as written. */
  lemma RecordOrder(keys: seq<Str>, values: seq<Value>)
    requires RecordKeys(keys) && |keys| == |values|
    ensures ObjectOrder(Record(keys, values))
  {
    var fs := Record(keys, values);
    forall i, j | 0 <= i < j < |fs| ensures fs[i].key != fs[j].key {
      assert Mark(keys[i]) != Mark(keys[j]);
    }
    forall i | 0 <= i < |fs| ensures !IsArrayIndex(fs[i].key) {
      assert Mark(keys[i]) >= 0;
    }
  }

  lemma RecordValid(keys: seq<Str>, values: seq<Value>)
    requires RecordKeys(keys) && |keys| == |values|
    requires forall i | 0 <= i < |values| :: Valid(values[i]) && !Unsignable(values[i])
    ensures Valid(Obj(Record(keys, values))) && !Unsignable(Obj(Record(keys, values)))
    ensures CanonicalJson(Obj(Record(keys, values))).Some?
  {
    RecordOrder(keys, values);
    ThrowsExactly(Obj(Record(keys, values)));
  }

  /** Two records with the same keys are the same exactly when they are field by field. */
  lemma SameRecord(keys: seq<Str>, vs: seq<Value>, ws: seq<Value>)
    requires RecordKeys(keys) && |keys| == |vs| == |ws|
    ensures Same(Obj(Record(keys, vs)), Obj(Record(keys, ws))) <==> forall i | 0 <= i < |vs| :: Same(vs[i], ws[i])
  {
    var fs, gs := Record(keys, vs), Record(keys, ws);
    RecordOrder(keys, vs);
    RecordOrder(keys, ws);
    forall i | 0 <= i < |fs|
      ensures Get(gs, fs[i].key) == Some(ws[i]) && Get(fs, gs[i].key) == Some(vs[i])
    {
      GetAt(fs, i);
      GetAt(gs, i);
    }
    if Same(Obj(fs), Obj(gs)) {
      forall i | 0 <= i < |vs| ensures Same(vs[i], ws[i]) {
        assert Same(fs[i].value, Get(gs, fs[i].key).value);
      }
    }
  }

  function Texts(xs: seq<Str>): seq<Value> {
    seq(|xs|, i requires 0 <= i < |xs| => Text(xs[i]))
  }

  lemma SameTexts(xs: seq<Str>, ys: seq<Str>)
    ensures Same(Arr(Texts(xs)), Arr(Texts(ys))) <==> xs == ys
  {
    if Same(Arr(Texts(xs)), Arr(Texts(ys))) {
      forall i | 0 <= i < |xs| ensures xs[i] == ys[i] {
        assert Same(Texts(xs)[i], Texts(ys)[i]);
      }
    }
  }

  function OrNull(s: Option<Str>): Value {
    match s
    case None => Null
    case Some(t) => Text(t)
  }

  // ---------- the signed bytes ----------

  const KEY_ID: Str := Lit("v1")

  function DomainName(d: Domain): Str {
    if d.Request? then Lit("request") else Lit("event")
  }

  const ENVELOPE_KEYS: seq<Str> :=
    [ Lit("domain"), Lit("keyId"), Lit("requestId"), Lit("orgId"), Lit("userId"), Lit("role"), Lit("permissions"),
      Lit("plan"), Lit("resource"), Lit("operation"), Lit("issuedAt"), Lit("deadlineAt"), Lit("traceparent"),
      Lit("payloadHash") ]

  function EnvelopeValues(d: Domain, m: Meta, payloadHash: Str): seq<Value> {
    [ Text(DomainName(d)), Text(KEY_ID), Text(m.requestId), Text(m.orgId), Text(m.userId), Text(RoleName(m.role)),
      Arr(Texts(Sort(LexLe, m.permissions))), Text(m.plan), Text(m.resource), Text(m.operation),
      Num(m.issuedAt), Num(m.deadlineAt), OrNull(m.traceparent), Text(payloadHash) ]
  }

  const REPLY_KEYS: seq<Str> :=
    [ Lit("keyId"), Lit("requestId"), Lit("resource"), Lit("operation"), Lit("ok"), Lit("dataHash") ]

  function ReplyValues(b: Binding, dataHash: Str): seq<Value> {
    [ Text(KEY_ID), Text(b.requestId), Text(b.resource), Text(b.operation), Bool(b.ok), Text(dataHash) ]
  }

  /** contentHash; None when the value cannot be canonicalised. */
  function ContentHash(c: Crypto, v: Value): Option<Str> {
    match CanonicalJson(v)
    case None => None
    case Some(t) => Some(c.sha(t))
  }

  function CanonicalEnvelope(c: Crypto, d: Domain, m: Meta, payload: Value): Option<Str> {
    match ContentHash(c, payload)
    case None => None
    case Some(h) => CanonicalJson(Obj(Record(ENVELOPE_KEYS, EnvelopeValues(d, m, h))))
  }

  function CanonicalReply(c: Crypto, b: Binding, data: Value): Option<Str> {
    match ContentHash(c, data)
    case None => None
    case Some(h) => CanonicalJson(Obj(Record(REPLY_KEYS, ReplyValues(b, h))))
  }

  /** Permissions are a set of claims: their order is not signed. */
  ghost predicate SameMeta(m: Meta, n: Meta) {
    && multiset(m.permissions) == multiset(n.permissions)
    && m.(permissions := []) == n.(permissions := [])
  }

  lemma EnvelopeKeys()
    ensures RecordKeys(ENVELOPE_KEYS)
  {
    assert Mark(Lit("domain")) == 0x6006F && Mark(Lit("keyId")) == 0x50065 && Mark(Lit("requestId")) == 0x90065;
    assert Mark(Lit("orgId")) == 0x50072 && Mark(Lit("userId")) == 0x60073 && Mark(Lit("role")) == 0x4006F;
    assert Mark(Lit("permissions")) == 0xB0065 && Mark(Lit("plan")) == 0x4006C;
    assert Mark(Lit("resource")) == 0x80065 && Mark(Lit("operation")) == 0x90070;
    assert Mark(Lit("issuedAt")) == 0x80073 && Mark(Lit("deadlineAt")) == 0xA0065;
    assert Mark(Lit("traceparent")) == 0xB0072 && Mark(Lit("payloadHash")) == 0xB0061;
  }

  lemma ReplyKeys()
    ensures RecordKeys(REPLY_KEYS)
  {
    assert Mark(Lit("keyId")) == 0x50065 && Mark(Lit("requestId")) == 0x90065 && Mark(Lit("resource")) == 0x80065;
    assert Mark(Lit("operation")) == 0x90070 && Mark(Lit("ok")) == 0x2006B && Mark(Lit("dataHash")) == 0x80061;
  }

  lemma TextsValid(xs: seq<Str>)
    ensures Valid(Arr(Texts(xs))) && !Unsignable(Arr(Texts(xs)))
  {
  }

  lemma EnvelopeValuesValid(d: Domain, m: Meta, h: Str)
    ensures forall i | 0 <= i < 14 :: Valid(EnvelopeValues(d, m, h)[i]) && !Unsignable(EnvelopeValues(d, m, h)[i])
  {
    TextsValid(Sort(LexLe, m.permissions));
  }

  lemma EnvelopeRecordValid(d: Domain, m: Meta, h: Str)
    ensures Valid(Obj(Record(ENVELOPE_KEYS, EnvelopeValues(d, m, h))))
    ensures CanonicalJson(Obj(Record(ENVELOPE_KEYS, EnvelopeValues(d, m, h)))).Some?
  {
    EnvelopeKeys();
    EnvelopeValuesValid(d, m, h);
    RecordValid(ENVELOPE_KEYS, EnvelopeValues(d, m, h));
  }

  lemma ReplyRecordValid(b: Binding, h: Str)
    ensures Valid(Obj(Record(REPLY_KEYS, ReplyValues(b, h))))
    ensures CanonicalJson(Obj(Record(REPLY_KEYS, ReplyValues(b, h)))).Some?
  {
    ReplyKeys();
    RecordValid(REPLY_KEYS, ReplyValues(b, h));
  }

  lemma SameSorted(xs: seq<Str>, ys: seq<Str>)
    ensures Sort(LexLe, xs) == Sort(LexLe, ys) <==> multiset(xs) == multiset(ys)
  {
    LexLeIsOrder();
    SortCorrect(LexLe, xs);
    SortCorrect(LexLe, ys);
    if multiset(xs) == multiset(ys) {
      var a := Sort(LexLe, xs);
      forall i, j | 0 <= i < |a| && 0 <= j < |a| && LexLe(a[i], a[j]) && LexLe(a[j], a[i]) ensures a[i] == a[j] {
        LexLeTotal(a[i], a[j]);
      }
      SortedUnique(LexLe, a, Sort(LexLe, ys));
    }
  }

  lemma DomainNamesDistinct()
    ensures DomainName(Request) != DomainName(Event)
  {
    assert |Lit("request")| == 7 && |Lit("event")| == 5;
  }

  lemma SameReflexive(v: Value)
    requires Valid(v) && !Unsignable(v)
    ensures Same(v, v)
  {
    ThrowsExactly(v);
    CanonicalSame(v, v);
  }

  lemma EqualEnvelopeValues(d: Domain, m: Meta, h: Str, n: Meta)
    requires SameMeta(m, n)
    ensures forall i | 0 <= i < 14 :: Same(EnvelopeValues(d, m, h)[i], EnvelopeValues(d, n, h)[i])
  {
    SameSorted(m.permissions, n.permissions);
    EnvelopeValuesValid(d, m, h);
    forall i | 0 <= i < 14 ensures Same(EnvelopeValues(d, m, h)[i], EnvelopeValues(d, n, h)[i]) {
      assert m.(permissions := []) == n.(permissions := []);
      assert EnvelopeValues(d, m, h)[i] == EnvelopeValues(d, n, h)[i];
      SameReflexive(EnvelopeValues(d, m, h)[i]);
    }
  }

  /** Plain values are the same only when equal. */
  lemma SamePlain(v: Value, w: Value)
    requires (v.Null? || v.Text? || v.Num?) && (w.Null? || w.Text? || w.Num?) && Same(v, w)
    ensures v == w
  {
  }

  lemma EqualMeta(d: Domain, m: Meta, h: Str, e: Domain, n: Meta, g: Str)
    requires forall i | 0 <= i < 14 && i != 6 :: EnvelopeValues(d, m, h)[i] == EnvelopeValues(e, n, g)[i]
    requires Same(EnvelopeValues(d, m, h)[6], EnvelopeValues(e, n, g)[6])
    ensures d == e && SameMeta(m, n) && h == g
  {
    var vs, ws := EnvelopeValues(d, m, h), EnvelopeValues(e, n, g);
    EqualColumns(d, m, h, e, n, g, vs, ws);
    SameTexts(Sort(LexLe, m.permissions), Sort(LexLe, n.permissions));
    SameSorted(m.permissions, n.permissions);
    RoleNamesDistinct(m.role, n.role);
    DomainNamesDistinct();
  }

  lemma EqualColumns(d: Domain, m: Meta, h: Str, e: Domain, n: Meta, g: Str, vs: seq<Value>, ws: seq<Value>)
    requires vs == EnvelopeValues(d, m, h) && ws == EnvelopeValues(e, n, g)
    requires forall i | 0 <= i < 14 && i != 6 :: vs[i] == ws[i]
    ensures DomainName(d) == DomainName(e) && RoleName(m.role) == RoleName(n.role) && h == g
    ensures m.(permissions := [], role := Member) == n.(permissions := [], role := Member)
  {
    EqualNames(d, m, h, e, n, g, vs, ws);
    EqualNumbers(d, m, h, e, n, g, vs, ws);
  }

  lemma EqualNames(d: Domain, m: Meta, h: Str, e: Domain, n: Meta, g: Str, vs: seq<Value>, ws: seq<Value>)
    requires vs == EnvelopeValues(d, m, h) && ws == EnvelopeValues(e, n, g)
    requires forall i | 0 <= i < 14 && i != 6 :: vs[i] == ws[i]
    ensures DomainName(d) == DomainName(e) && RoleName(m.role) == RoleName(n.role)
    ensures m.requestId == n.requestId && m.orgId == n.orgId && m.userId == n.userId
  {
    assert vs[0] == ws[0] && vs[2] == ws[2] && vs[3] == ws[3] && vs[4] == ws[4] && vs[5] == ws[5];
  }

  lemma EqualNumbers(d: Domain, m: Meta, h: Str, e: Domain, n: Meta, g: Str, vs: seq<Value>, ws: seq<Value>)
    requires vs == EnvelopeValues(d, m, h) && ws == EnvelopeValues(e, n, g)
    requires forall i | 0 <= i < 14 && i != 6 :: vs[i] == ws[i]
    ensures m.plan == n.plan && m.resource == n.resource && m.operation == n.operation
    ensures m.issuedAt == n.issuedAt && m.deadlineAt == n.deadlineAt && m.traceparent == n.traceparent && h == g
  {
    assert vs[7] == ws[7] && vs[8] == ws[8] && vs[9] == ws[9] && vs[10] == ws[10] && vs[11] == ws[11];
    assert vs[12] == ws[12] && vs[13] == ws[13];
  }

  lemma SameEnvelopeValues(d: Domain, m: Meta, h: Str, e: Domain, n: Meta, g: Str)
    ensures (forall i | 0 <= i < 14 :: Same(EnvelopeValues(d, m, h)[i], EnvelopeValues(e, n, g)[i]))
      <==> d == e && SameMeta(m, n) && h == g
  {
    if forall i | 0 <= i < 14 :: Same(EnvelopeValues(d, m, h)[i], EnvelopeValues(e, n, g)[i]) {
      forall i | 0 <= i < 14 && i != 6 ensures EnvelopeValues(d, m, h)[i] == EnvelopeValues(e, n, g)[i] {
        SamePlain(EnvelopeValues(d, m, h)[i], EnvelopeValues(e, n, g)[i]);
      }
      EqualMeta(d, m, h, e, n, g);
    }
    if d == e && SameMeta(m, n) && h == g {
      EqualEnvelopeValues(d, m, h, n);
    }
  }

  lemma SameReplyValues(a: Binding, h: Str, b: Binding, g: Str)
    ensures (forall i | 0 <= i < 6 :: Same(ReplyValues(a, h)[i], ReplyValues(b, g)[i])) <==> a == b && h == g
  {
    var vs, ws := ReplyValues(a, h), ReplyValues(b, g);
    if forall i | 0 <= i < 6 :: Same(vs[i], ws[i]) {
      assert Same(vs[1], ws[1]) && Same(vs[2], ws[2]) && Same(vs[3], ws[3]) && Same(vs[4], ws[4]);
      assert Same(vs[5], ws[5]);
    }
  }

  lemma SameHash(c: Crypto, v: Value, w: Value)
    requires Ideal(c) && Valid(v) && Valid(w)
    ensures Same(v, w) <==> ContentHash(c, v).Some? && ContentHash(c, v) == ContentHash(c, w)
  {
    CanonicalJsonSame(v, w);
  }

  function EnvelopeRecord(d: Domain, m: Meta, h: Str): Value { Obj(Record(ENVELOPE_KEYS, EnvelopeValues(d, m, h))) }

  lemma EnvelopeTextExactly(d: Domain, m: Meta, h: Str, e: Domain, n: Meta, g: Str)
    ensures CanonicalJson(EnvelopeRecord(d, m, h)).Some?
    ensures CanonicalJson(EnvelopeRecord(d, m, h)) == CanonicalJson(EnvelopeRecord(e, n, g))
      <==> d == e && SameMeta(m, n) && h == g
  {
    EnvelopeRecordValid(d, m, h);
    EnvelopeRecordValid(e, n, g);
    CanonicalJsonSame(EnvelopeRecord(d, m, h), EnvelopeRecord(e, n, g));
    EnvelopeKeys();
    SameRecord(ENVELOPE_KEYS, EnvelopeValues(d, m, h), EnvelopeValues(e, n, g));
    SameEnvelopeValues(d, m, h, e, n, g);
  }

  /**
   * The signed bytes of an envelope determine its domain, its meta up to the order of permissions,
   * and its payload up to key order; so a request never has the bytes of an event.
   */
  lemma EnvelopeBytesExactly(c: Crypto, d: Domain, m: Meta, p: Value, e: Domain, n: Meta, q: Value)
    requires Ideal(c) && Valid(p) && Valid(q)
    ensures CanonicalEnvelope(c, d, m, p).Some? && CanonicalEnvelope(c, d, m, p) == CanonicalEnvelope(c, e, n, q)
      <==> d == e && SameMeta(m, n) && Same(p, q)
  {
    SameHash(c, p, q);
    if ContentHash(c, p).Some? && ContentHash(c, q).Some? {
      EnvelopeTextExactly(d, m, ContentHash(c, p).value, e, n, ContentHash(c, q).value);
    }
  }

  function ReplyRecord(b: Binding, h: Str): Value { Obj(Record(REPLY_KEYS, ReplyValues(b, h))) }

  lemma ReplyTextExactly(a: Binding, h: Str, b: Binding, g: Str)
    ensures CanonicalJson(ReplyRecord(a, h)).Some?
    ensures CanonicalJson(ReplyRecord(a, h)) == CanonicalJson(ReplyRecord(b, g)) <==> a == b && h == g
  {
    ReplyRecordValid(a, h);
    ReplyRecordValid(b, g);
    CanonicalJsonSame(ReplyRecord(a, h), ReplyRecord(b, g));
    ReplyKeys();
    SameRecord(REPLY_KEYS, ReplyValues(a, h), ReplyValues(b, g));
    SameReplyValues(a, h, b, g);
  }

  /** The signed bytes of a reply determine what it answers, its outcome and its body. */
  lemma ReplyBytesExactly(c: Crypto, a: Binding, v: Value, b: Binding, w: Value)
    requires Ideal(c) && Valid(v) && Valid(w)
    ensures CanonicalReply(c, a, v).Some? && CanonicalReply(c, a, v) == CanonicalReply(c, b, w)
      <==> a == b && Same(v, w)
  {
    SameHash(c, v, w);
    if ContentHash(c, v).Some? && ContentHash(c, w).Some? {
      ReplyTextExactly(a, ContentHash(c, v).value, b, ContentHash(c, w).value);
    }
  }

  /** No reply has the bytes of an envelope of either domain. */
  lemma ReplyIsNoEnvelope(c: Crypto, d: Domain, m: Meta, p: Value, b: Binding, v: Value)
    requires CanonicalEnvelope(c, d, m, p).Some?
    ensures CanonicalEnvelope(c, d, m, p) != CanonicalReply(c, b, v)
  {
    if ContentHash(c, v).Some? {
      var h, g := ContentHash(c, p).value, ContentHash(c, v).value;
      var fs, gs := Record(ENVELOPE_KEYS, EnvelopeValues(d, m, h)), Record(REPLY_KEYS, ReplyValues(b, g));
      EnvelopeRecordValid(d, m, h);
      ReplyRecordValid(b, g);
      CanonicalJsonSame(Obj(fs), Obj(gs));
      NoDomainInReply(b, g);
      assert fs[0].key == Lit("domain");
      assert !Same(Obj(fs), Obj(gs));
    }
  }

  lemma NoDomainInReply(b: Binding, h: Str)
    ensures Get(Record(REPLY_KEYS, ReplyValues(b, h)), Lit("domain")).None?
  {
    var fs := Record(REPLY_KEYS, ReplyValues(b, h));
    assert Mark(Lit("domain")) == 0x6006F;
    assert Mark(Lit("keyId")) == 0x50065 && Mark(Lit("requestId")) == 0x90065 && Mark(Lit("resource")) == 0x80065;
    assert Mark(Lit("operation")) == 0x90070 && Mark(Lit("ok")) == 0x2006B && Mark(Lit("dataHash")) == 0x80061;
    forall i | 0 <= i < |fs| ensures fs[i].key != Lit("domain") {
      assert Mark(fs[i].key) != Mark(Lit("domain"));
    }
    if Get(fs, Lit("domain")).Some? {
      var i := GetFrom(fs, Lit("domain"));
    }
  }

  // ---------- signatures ----------

  /** None is the throw of an uncanonicalisable body. */
  function Sign(c: Crypto, secret: Str, bytes: Option<Str>): Option<Str> {
    match bytes
    case None => None
    case Some(b) => Some(c.mac(secret, b))
  }

  function SignRequest(c: Crypto, secret: Str, m: Meta, payload: Value): Option<Str> {
    Sign(c, secret, CanonicalEnvelope(c, Request, m, payload))
  }

  function SignEvent(c: Crypto, secret: Str, m: Meta, payload: Value): Option<Str> {
    Sign(c, secret, CanonicalEnvelope(c, Event, m, payload))
  }

  function SignReply(c: Crypto, secret: Str, b: Binding, data: Value): Option<Str> {
    Sign(c, secret, CanonicalReply(c, b, data))
  }

  /** A body that cannot be canonicalised was signed by nobody: the verifier refuses it. */
  predicate VerifyAgainst(expected: Option<Str>, signature: Str) {
    expected.Some? && |expected.value| == |signature| && expected.value == signature
  }

  predicate VerifyRequest(c: Crypto, secret: Str, m: Meta, payload: Value, signature: Str) {
    VerifyAgainst(SignRequest(c, secret, m, payload), signature)
  }

  predicate VerifyEvent(c: Crypto, secret: Str, m: Meta, payload: Value, signature: Str) {
    VerifyAgainst(SignEvent(c, secret, m, payload), signature)
  }

  predicate VerifyReply(c: Crypto, secret: Str, b: Binding, data: Value, signature: Str) {
    VerifyAgainst(SignReply(c, secret, b, data), signature)
  }

  /** A reply's signature verifies exactly the binding it was made for. */
  lemma ReplyVerifiesExactly(c: Crypto, secret: Str, a: Binding, b: Binding, data: Value, signature: Str)
    requires Ideal(c) && Valid(data) && SignReply(c, secret, a, data) == Some(signature)
    ensures VerifyReply(c, secret, b, data, signature) <==> a == b
  {
    ReplyBytesExactly(c, a, data, b, data);
    ReplyBytesExactly(c, a, data, a, data);
  }

  /** A request signature verifies exactly the meta and payload it was made for, and no event. */
  lemma VerifiesExactly(c: Crypto, secret: Str, d: Domain, m: Meta, p: Value, n: Meta, q: Value)
    requires Ideal(c) && Valid(p) && Valid(q) && CanonicalEnvelope(c, d, m, p).Some?
    ensures VerifyRequest(c, secret, n, q, c.mac(secret, CanonicalEnvelope(c, d, m, p).value))
      <==> d == Request && SameMeta(m, n) && Same(p, q)
  {
    EnvelopeBytesExactly(c, d, m, p, Request, n, q);
  }

  /** Verifiers refuse every value canonicalise throws on, whatever signature comes with it. */
  lemma UnsignableRefused(c: Crypto, secret: Str, m: Meta, b: Binding, v: Value, signature: Str)
    requires Unsignable(v)
    ensures !VerifyRequest(c, secret, m, v, signature)
    ensures !VerifyEvent(c, secret, m, v, signature)
    ensures !VerifyReply(c, secret, b, v, signature)
  {
    ThrowsExactly(v);
  }

  // ---------- freshness ----------

  const CLOCK_SKEW_MS := 2000

  datatype Verdict = Fresh | FromTheFuture | ImpossibleBudget | Expired

  function CheckFreshness(maxTimeout: int, m: Meta, transport: Transport, now: int, skew: int): Verdict {
    if m.issuedAt > now + skew then FromTheFuture
    else
      var budget := m.deadlineAt - m.issuedAt;
      if budget <= 0 || budget > maxTimeout + skew then ImpossibleBudget
      else if transport.Rpc? && m.deadlineAt + skew <= now then Expired
      else Fresh
  }

  /** A captured rpc envelope can be replayed only inside a window fixed by the registry and the skew. */
  lemma ReplayWindow(maxTimeout: int, m: Meta, now: int, skew: int)
    requires CheckFreshness(maxTimeout, m, Rpc, now, skew).Fresh?
    ensures -skew <= now - m.issuedAt < maxTimeout + 2 * skew
    ensures now < m.deadlineAt + skew
  {
  }

  /**
   * Time only expires an envelope: one that is fresh stays so for as long as its transport allows, a
   * command for good and an rpc up to its deadline and the skew; one that expired is never fresh again.
   */
  lemma FreshnessOverTime(maxTimeout: int, m: Meta, transport: Transport, now: int, later: int, skew: int)
    requires now <= later
    ensures CheckFreshness(maxTimeout, m, transport, now, skew).Fresh? ==>
      (CheckFreshness(maxTimeout, m, transport, later, skew).Fresh?
       <==> transport.Command? || later < m.deadlineAt + skew)
    ensures CheckFreshness(maxTimeout, m, transport, now, skew).Expired? ==>
      CheckFreshness(maxTimeout, m, transport, later, skew).Expired?
    ensures CheckFreshness(maxTimeout, m, transport, now, skew).ImpossibleBudget? ==>
      CheckFreshness(maxTimeout, m, transport, later, skew).ImpossibleBudget?
  {
  }
}
