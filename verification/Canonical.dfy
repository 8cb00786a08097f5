/** The canonical form: which values it accepts, what it forgets, and that the wire cannot change it. */
module Canonical {
  import opened Prelude
  import opened Json

  // ---------- object property order ----------

  predicate KeyLe(a: Field, b: Field) { LexLe(a.key, b.key) }

  lemma KeyLeIsOrder()
    ensures TotalPreorder(KeyLe)
  {
    LexLeIsOrder();
    forall a: Field, b: Field { LexLeTotal(a.key, b.key); }
    forall a: Field, b: Field, c: Field | KeyLe(a, b) && KeyLe(b, c) { LexLeTransitive(a.key, b.key, c.key); }
  }

  lemma {:induction false} DefineNew(out: seq<Field>, f: Field)
    requires forall i | 0 <= i < |out| :: out[i].key != f.key
    ensures multiset(Define(out, f)) == multiset(out) + multiset{f}
    decreases |out|
  {
    if out != [] && !IndexBefore(f.key, out[0].key) {
      assert out == [out[0]] + out[1..];
      DefineNew(out[1..], f);
    }
  }

  /** Defining distinct properties one after another loses none. */
  lemma {:induction false} DefineAllNew(out: seq<Field>, fs: seq<Field>)
    requires DistinctKeys(out + fs)
    ensures multiset(DefineAll(out, fs)) == multiset(out) + multiset(fs)
    decreases |fs|
  {
    if fs != [] {
      forall i | 0 <= i < |out| ensures out[i].key != fs[0].key {
        assert (out + fs)[i] == out[i] && (out + fs)[|out|] == fs[0];
      }
      DefineNew(out, fs[0]);
      var next := Define(out, fs[0]);
      assert fs == [fs[0]] + fs[1..];
      assert multiset(next + fs[1..]) == multiset(out + fs);
      DistinctKeysPermute(out + fs, next + fs[1..]);
      DefineAllNew(next, fs[1..]);
    }
  }

  lemma {:induction false} DistinctOnce(fs: seq<Field>, f: Field)
    requires DistinctKeys(fs)
    ensures multiset(fs)[f] == if f in fs then 1 else 0
  {
    if fs != [] {
      assert fs == [fs[0]] + fs[1..];
      DistinctOnce(fs[1..], f);
    }
  }

  lemma Twice<T>(xs: seq<T>, i: nat, j: nat)
    requires i < j < |xs| && xs[i] == xs[j]
    ensures multiset(xs)[xs[i]] >= 2
  {
    assert xs == xs[..j] + xs[j..];
    assert xs[..j][i] == xs[i] && xs[j..][0] == xs[j];
    assert xs[i] in multiset(xs[..j]) && xs[j] in multiset(xs[j..]);
  }

  lemma DistinctKeysPermute(fs: seq<Field>, gs: seq<Field>)
    requires DistinctKeys(fs) && multiset(fs) == multiset(gs)
    ensures DistinctKeys(gs)
  {
    forall i, j | 0 <= i < j < |gs| ensures gs[i].key != gs[j].key {
      assert gs[i] in multiset(gs) && gs[j] in multiset(gs);
      var a :| 0 <= a < |fs| && fs[a] == gs[i];
      var b :| 0 <= b < |fs| && fs[b] == gs[j];
      if gs[i] == gs[j] {
        DistinctOnce(fs, gs[i]);
        Twice(gs, i, j);
      }
    }
  }

  /** Distinct properties listed twice in different orders. */
  lemma SameMembersPermute(fs: seq<Field>, gs: seq<Field>)
    requires DistinctKeys(fs) && DistinctKeys(gs)
    requires forall f :: f in fs <==> f in gs
    ensures multiset(fs) == multiset(gs)
  {
    forall f: Field ensures multiset(fs)[f] == multiset(gs)[f] {
      DistinctOnce(fs, f);
      DistinctOnce(gs, f);
    }
  }

  /** The object canonicalise builds: sorted by key, then defined one property at a time. */
  function Assemble(fs: seq<Field>): seq<Field> { DefineAll([], Sort(KeyLe, fs)) }

  lemma AssembleKeeps(fs: seq<Field>)
    requires DistinctKeys(fs)
    ensures multiset(Assemble(fs)) == multiset(fs) && ObjectOrder(Assemble(fs))
  {
    KeyLeIsOrder();
    SortCorrect(KeyLe, fs);
    var sorted := Sort(KeyLe, fs);
    DistinctKeysPermute(fs, sorted);
    assert [] + sorted == sorted;
    DefineAllNew([], sorted);
    DefineAllOrdered([], sorted, []);
  }

  lemma DistinctAntisymmetric(fs: seq<Field>)
    requires DistinctKeys(fs)
    ensures AntisymmetricOn(KeyLe, fs)
  {
    forall i, j | 0 <= i < |fs| && 0 <= j < |fs| && KeyLe(fs[i], fs[j]) && KeyLe(fs[j], fs[i]) ensures fs[i] == fs[j] {
      LexLeTotal(fs[i].key, fs[j].key);
    }
  }

  /** The order properties were written in leaves no trace. */
  lemma AssemblePermute(fs: seq<Field>, gs: seq<Field>)
    requires DistinctKeys(fs) && multiset(fs) == multiset(gs)
    ensures Assemble(fs) == Assemble(gs)
  {
    KeyLeIsOrder();
    SortCorrect(KeyLe, fs);
    SortCorrect(KeyLe, gs);
    DistinctKeysPermute(fs, Sort(KeyLe, fs));
    DistinctAntisymmetric(Sort(KeyLe, fs));
    SortedUnique(KeyLe, Sort(KeyLe, fs), Sort(KeyLe, gs));
  }

  // ---------- canonicalise ----------

  /** None is the Error the source throws. */
  function Canonicalise(v: Value): Option<Value> {
    match v
    case Null => Some(v)
    case Bool(_) => Some(v)
    case Num(_) => Some(v)
    case Text(_) => Some(v)
    case Stamp(iso) => Some(Text(iso))
    case Arr(items) =>
      (match CanonicaliseItems(items)
       case None => None
       case Some(r) => Some(Arr(r)))
    case Obj(fields) =>
      (match CanonicaliseFields(fields)
       case None => None
       case Some(r) => Some(Obj(Assemble(r))))
    case _ => None
  }

  function CanonicaliseItems(items: seq<Value>): (r: Option<seq<Value>>)
    ensures r.Some? ==> |r.value| == |items|
  {
    if items == [] then Some([])
    else
      match (Canonicalise(items[0]), CanonicaliseItems(items[1..]))
      case (Some(v), Some(vs)) => Some([v] + vs)
      case _ => None
  }

  function CanonicaliseFields(fs: seq<Field>): (r: Option<seq<Field>>)
    ensures r.Some? ==> |r.value| == |fs|
  {
    if fs == [] then Some([])
    else
      match (Canonicalise(fs[0].value), CanonicaliseFields(fs[1..]))
      case (Some(v), Some(rest)) => Some([Field(fs[0].key, v)] + rest)
      case _ => None
  }

  /** The text every signature covers. */
  function CanonicalJson(v: Value): Option<Str> {
    match Canonicalise(v)
    case None => None
    case Some(c) => Some(Print(c))
  }

  /** What JavaScript guarantees of any value: its objects list distinct keys in enumeration order. */
  predicate Valid(v: Value) {
    match v
    case Arr(items) => forall i | 0 <= i < |items| :: Valid(items[i])
    case Obj(fields) => ObjectOrder(fields) && forall i | 0 <= i < |fields| :: Valid(fields[i].value)
    case Num(n) => Finite(n)
    case _ => true
  }

  lemma {:induction false} CanonicaliseItemsAt(items: seq<Value>)
    ensures CanonicaliseItems(items).Some? <==> forall i | 0 <= i < |items| :: Canonicalise(items[i]).Some?
    ensures CanonicaliseItems(items).Some? ==>
      forall i | 0 <= i < |items| :: Canonicalise(items[i]) == Some(CanonicaliseItems(items).value[i])
  {
    if items != [] {
      CanonicaliseItemsAt(items[1..]);
      assert items == [items[0]] + items[1..];
    }
  }

  lemma {:induction false} CanonicaliseFieldsAt(fs: seq<Field>)
    ensures CanonicaliseFields(fs).Some? <==> forall i | 0 <= i < |fs| :: Canonicalise(fs[i].value).Some?
    ensures CanonicaliseFields(fs).Some? ==>
      forall i | 0 <= i < |fs| ::
        CanonicaliseFields(fs).value[i].key == fs[i].key
        && Canonicalise(fs[i].value) == Some(CanonicaliseFields(fs).value[i].value)
  {
    if fs != [] {
      CanonicaliseFieldsAt(fs[1..]);
      assert fs == [fs[0]] + fs[1..];
    }
  }

  // ---------- when it throws ----------

  /** An undefined, a function, a non-finite number or an invalid Date occurs somewhere inside. */
  predicate Unsignable(v: Value) {
    match v
    case Arr(items) => exists i | 0 <= i < |items| :: Unsignable(items[i])
    case Obj(fields) => exists i | 0 <= i < |fields| :: Unsignable(fields[i].value)
    case _ => v.BadStamp? || v.NonFinite? || v.Undefined? || v.Function?
  }

  lemma {:induction false} ThrowsExactly(v: Value)
    ensures Canonicalise(v).None? <==> Unsignable(v)
  {
    match v
    case Arr(items) =>
      CanonicaliseItemsAt(items);
      forall i | 0 <= i < |items| { ThrowsExactly(items[i]); }
    case Obj(fields) =>
      CanonicaliseFieldsAt(fields);
      forall i | 0 <= i < |fields| { ThrowsExactly(fields[i].value); }
    case _ =>
  }

  lemma {:induction false} CanonicalIsJson(v: Value)
    requires Valid(v) && Canonicalise(v).Some?
    ensures IsJson(Canonicalise(v).value)
  {
    match v
    case Arr(items) =>
      CanonicaliseItemsAt(items);
      forall i | 0 <= i < |items| ensures IsJson(CanonicaliseItems(items).value[i]) { CanonicalIsJson(items[i]); }
    case Obj(fields) =>
      CanonicaliseFieldsAt(fields);
      var r := CanonicaliseFields(fields).value;
      AssembleKeeps(r);
      var out := Assemble(r);
      forall i | 0 <= i < |out| ensures IsJson(out[i].value) {
        assert out[i] in multiset(r);
        var j :| 0 <= j < |r| && r[j] == out[i];
        CanonicalIsJson(fields[j].value);
      }
    case _ =>
  }

  // ---------- what it forgets: exactly key order, and Date against its ISO string ----------

  function AsText(v: Value): Option<Str> {
    match v
    case Text(s) => Some(s)
    case Stamp(iso) => Some(iso)
    case _ => None
  }

  /** The same JSON projection: at every depth the same keys, in any order, with the same values. */
  ghost predicate Same(v: Value, w: Value)
    decreases v
  {
    match v
    case Null => w == v
    case Bool(_) => w == v
    case Num(_) => w == v
    case Text(s) => AsText(w) == Some(s)
    case Stamp(iso) => AsText(w) == Some(iso)
    case Arr(items) =>
      w.Arr? && |w.items| == |items| && forall i | 0 <= i < |items| :: Same(items[i], w.items[i])
    case Obj(fields) =>
      && w.Obj?
      && (forall i | 0 <= i < |fields| ::
            var found := Get(w.fields, fields[i].key); found.Some? && Same(fields[i].value, found.value))
      && (forall j | 0 <= j < |w.fields| :: Get(fields, w.fields[j].key).Some?)
    case _ => false
  }

  lemma {:induction false} GetAt(fs: seq<Field>, i: nat)
    requires DistinctKeys(fs) && i < |fs|
    ensures Get(fs, fs[i].key) == Some(fs[i].value)
  {
    if i > 0 {
      assert fs[0].key != fs[i].key;
      assert fs[1..][i - 1] == fs[i];
      GetAt(fs[1..], i - 1);
    }
  }

  lemma {:induction false} GetFrom(fs: seq<Field>, key: Str) returns (i: nat)
    requires Get(fs, key).Some?
    ensures i < |fs| && fs[i] == Field(key, Get(fs, key).value)
  {
    if fs[0].key == key {
      i := 0;
    } else {
      i := GetFrom(fs[1..], key);
      i := i + 1;
    }
  }

  /** `a` is `fs` with every value canonicalised. */
  ghost predicate Image(fs: seq<Field>, a: seq<Field>) {
    && |a| == |fs|
    && forall i | 0 <= i < |fs| :: a[i].key == fs[i].key && Canonicalise(fs[i].value) == Some(a[i].value)
  }

  ghost predicate AgreeOn(v: Value, w: Value) {
    Same(v, w) <==> Canonicalise(v).Some? && Canonicalise(v) == Canonicalise(w)
  }

  /** What structural induction gives about every pair of members. */
  ghost predicate Agree(fs: seq<Field>, gs: seq<Field>) {
    forall i, j | 0 <= i < |fs| && 0 <= j < |gs| :: AgreeOn(fs[i].value, gs[j].value)
  }

  /** The index in `gs` of the member that `Same` pairs with member `i` of `fs`. */
  lemma PartnerRight(fs: seq<Field>, gs: seq<Field>, i: nat) returns (j: nat)
    requires i < |fs| && Same(Obj(fs), Obj(gs))
    ensures j < |gs| && gs[j].key == fs[i].key && Same(fs[i].value, gs[j].value)
  {
    j := GetFrom(gs, fs[i].key);
  }

  lemma PartnerLeft(fs: seq<Field>, gs: seq<Field>, j: nat) returns (i: nat)
    requires j < |gs| && DistinctKeys(gs) && Same(Obj(fs), Obj(gs))
    ensures i < |fs| && fs[i].key == gs[j].key && Same(fs[i].value, gs[j].value)
  {
    i := GetFrom(fs, gs[j].key);
    GetAt(gs, j);
  }

  lemma MatchedImages(fs: seq<Field>, gs: seq<Field>, a: seq<Field>, b: seq<Field>)
    requires Image(fs, a) && Image(gs, b) && Agree(fs, gs) && DistinctKeys(gs) && Same(Obj(fs), Obj(gs))
    ensures forall f :: f in a <==> f in b
  {
    forall f | f in a ensures f in b {
      var i :| 0 <= i < |a| && a[i] == f;
      var j := PartnerRight(fs, gs, i);
      assert AgreeOn(fs[i].value, gs[j].value);
      assert b[j] == f;
    }
    forall f | f in b ensures f in a {
      var j :| 0 <= j < |b| && b[j] == f;
      var i := PartnerLeft(fs, gs, j);
      assert AgreeOn(fs[i].value, gs[j].value);
      assert a[i] == f;
    }
  }

  lemma MatchedSources(fs: seq<Field>, gs: seq<Field>, a: seq<Field>, b: seq<Field>)
    requires Image(fs, a) && Image(gs, b) && Agree(fs, gs) && DistinctKeys(fs) && DistinctKeys(gs)
    requires forall f :: f in a <==> f in b
    ensures Same(Obj(fs), Obj(gs))
  {
    forall i | 0 <= i < |fs|
      ensures Get(gs, fs[i].key).Some? && Same(fs[i].value, Get(gs, fs[i].key).value)
    {
      assert a[i] in b;
      var j :| 0 <= j < |b| && b[j] == a[i];
      assert AgreeOn(fs[i].value, gs[j].value);
      GetAt(gs, j);
    }
    forall j | 0 <= j < |gs| ensures Get(fs, gs[j].key).Some? {
      assert b[j] in a;
      var i :| 0 <= i < |a| && a[i] == b[j];
      GetAt(fs, i);
    }
  }

  lemma AssembledAlike(a: seq<Field>, b: seq<Field>)
    requires DistinctKeys(a) && DistinctKeys(b)
    ensures Assemble(a) == Assemble(b) <==> forall f :: f in a <==> f in b
  {
    AssembleKeeps(a);
    AssembleKeeps(b);
    if Assemble(a) == Assemble(b) {
      forall f ensures f in a <==> f in b {
        assert f in multiset(a) <==> f in multiset(b);
      }
    }
    if forall f :: f in a <==> f in b {
      SameMembersPermute(a, b);
      AssemblePermute(a, b);
    }
  }

  lemma AllCanonical(fs: seq<Field>, gs: seq<Field>)
    requires Same(Obj(fs), Obj(gs)) && Agree(fs, gs) && DistinctKeys(gs)
    ensures CanonicaliseFields(fs).Some? && CanonicaliseFields(gs).Some?
  {
    forall i | 0 <= i < |fs| ensures Canonicalise(fs[i].value).Some? {
      var j := PartnerRight(fs, gs, i);
      assert AgreeOn(fs[i].value, gs[j].value);
    }
    CanonicaliseFieldsAt(fs);
    forall j | 0 <= j < |gs| ensures Canonicalise(gs[j].value).Some? {
      var i := PartnerLeft(fs, gs, j);
      assert AgreeOn(fs[i].value, gs[j].value);
    }
    CanonicaliseFieldsAt(gs);
  }

  lemma CanonicalSameFields(fs: seq<Field>, gs: seq<Field>)
    requires DistinctKeys(fs) && DistinctKeys(gs) && Agree(fs, gs)
    ensures AgreeOn(Obj(fs), Obj(gs))
  {
    if Same(Obj(fs), Obj(gs)) {
      AllCanonical(fs, gs);
    }
    if CanonicaliseFields(fs).Some? && CanonicaliseFields(gs).Some? {
      var a, b := CanonicaliseFields(fs).value, CanonicaliseFields(gs).value;
      CanonicaliseFieldsAt(fs);
      CanonicaliseFieldsAt(gs);
      AssembledAlike(a, b);
      if Same(Obj(fs), Obj(gs)) {
        MatchedImages(fs, gs, a, b);
      }
      if Assemble(a) == Assemble(b) {
        MatchedSources(fs, gs, a, b);
      }
    }
  }

  lemma CanonicalSameItems(xs: seq<Value>, ys: seq<Value>)
    requires |xs| == |ys| && forall i | 0 <= i < |xs| :: AgreeOn(xs[i], ys[i])
    ensures AgreeOn(Arr(xs), Arr(ys))
  {
    CanonicaliseItemsAt(xs);
    CanonicaliseItemsAt(ys);
    if Same(Arr(xs), Arr(ys)) {
      assert CanonicaliseItems(xs).value == CanonicaliseItems(ys).value;
    }
  }

  /** Two values have the same canonical form exactly when they are the same up to key order and dates. */
  lemma {:induction false} CanonicalSame(v: Value, w: Value)
    requires Valid(v) && Valid(w)
    ensures AgreeOn(v, w)
    decreases v
  {
    match v
    case Arr(items) =>
      if w.Arr? && |items| == |w.items| {
        forall i | 0 <= i < |items| ensures AgreeOn(items[i], w.items[i]) { CanonicalSame(items[i], w.items[i]); }
        CanonicalSameItems(items, w.items);
      }
    case Obj(fields) =>
      if w.Obj? {
        forall i, j | 0 <= i < |fields| && 0 <= j < |w.fields| ensures AgreeOn(fields[i].value, w.fields[j].value) {
          CanonicalSame(fields[i].value, w.fields[j].value);
        }
        CanonicalSameFields(fields, w.fields);
      }
    case _ =>
  }

  /** Equal canonical texts, equal values: the printer adds no ambiguity of its own. */
  lemma CanonicalJsonSame(v: Value, w: Value)
    requires Valid(v) && Valid(w)
    ensures Same(v, w) <==> CanonicalJson(v).Some? && CanonicalJson(v) == CanonicalJson(w)
  {
    CanonicalSame(v, w);
    if CanonicalJson(v).Some? && CanonicalJson(v) == CanonicalJson(w) {
      CanonicalIsJson(v);
      CanonicalIsJson(w);
      PrintInjective(Canonicalise(v).value, Canonicalise(w).value);
    }
  }

  // ---------- the wire ----------

  /** What JSON.stringify writes in a value's place: null for an array item it cannot write. */
  function Project(v: Value): Value {
    match v
    case Stamp(iso) => Text(iso)
    case Arr(items) => Arr(ProjectItems(items))
    case Obj(fields) => Obj(ProjectFields(fields))
    case BadStamp => Null
    case NonFinite => Null
    case Undefined => Null
    case Function => Null
    case _ => v
  }

  function ProjectItems(items: seq<Value>): seq<Value> {
    if items == [] then [] else [Project(items[0])] + ProjectItems(items[1..])
  }

  /** Properties holding undefined or a function are not written at all. */
  function ProjectFields(fs: seq<Field>): seq<Field> {
    if fs == [] then []
    else if fs[0].value.Undefined? || fs[0].value.Function? then ProjectFields(fs[1..])
    else [Field(fs[0].key, Project(fs[0].value))] + ProjectFields(fs[1..])
  }

  /** JSON.stringify; None is the undefined it returns for a value it cannot write. */
  function Stringify(v: Value): Option<Str> {
    if v.Undefined? || v.Function? then None else Some(Print(Project(v)))
  }

  /** The value a receiver decodes. */
  function OnTheWire(v: Value): Option<Value> {
    match Stringify(v)
    case None => None
    case Some(t) => Parse(t)
  }

  lemma {:induction false} ProjectIsJson(v: Value)
    requires Valid(v)
    ensures IsJson(Project(v))
  {
    match v
    case Arr(items) => ProjectItemsAreJson(items);
    case Obj(fields) => ProjectFieldsAreJson(fields);
    case _ =>
  }

  lemma {:induction false} ProjectItemsAreJson(items: seq<Value>)
    requires forall i | 0 <= i < |items| :: Valid(items[i])
    ensures forall i | 0 <= i < |ProjectItems(items)| :: IsJson(ProjectItems(items)[i])
  {
    if items != [] {
      ProjectIsJson(items[0]);
      ProjectItemsAreJson(items[1..]);
    }
  }

  lemma {:induction false} ProjectFieldsAreJson(fs: seq<Field>)
    requires ObjectOrder(fs) && forall i | 0 <= i < |fs| :: Valid(fs[i].value)
    ensures ObjectOrder(ProjectFields(fs))
    ensures forall j | 0 <= j < |ProjectFields(fs)| ::
      IsJson(ProjectFields(fs)[j].value) && exists i | 0 <= i < |fs| :: fs[i].key == ProjectFields(fs)[j].key
  {
    if fs != [] {
      var tail := fs[1..];
      assert ObjectOrder(tail);
      ProjectFieldsAreJson(tail);
      ProjectIsJson(fs[0].value);
      var rest := ProjectFields(tail);
      var f := Field(fs[0].key, Project(fs[0].value));
      forall j | 0 <= j < |rest|
        ensures rest[j].key != f.key && !IndexBefore(rest[j].key, f.key)
        ensures exists i | 0 <= i < |fs| :: fs[i].key == rest[j].key
      {
        var i :| 0 <= i < |tail| && tail[i].key == rest[j].key;
        assert fs[i + 1].key == rest[j].key;
      }
      ConsKeepsOrder(f, rest);
    }
  }

  lemma {:induction false} ProjectSame(v: Value)
    requires Valid(v) && !Unsignable(v)
    ensures Canonicalise(Project(v)) == Canonicalise(v)
  {
    match v
    case Arr(items) => ProjectSameItems(items);
    case Obj(fields) => ProjectSameFields(fields);
    case _ =>
  }

  lemma {:induction false} ProjectSameItems(items: seq<Value>)
    requires forall i | 0 <= i < |items| :: Valid(items[i]) && !Unsignable(items[i])
    ensures CanonicaliseItems(ProjectItems(items)) == CanonicaliseItems(items)
  {
    if items != [] {
      ProjectSame(items[0]);
      ProjectSameItems(items[1..]);
      assert ProjectItems(items)[1..] == ProjectItems(items[1..]);
    }
  }

  lemma {:induction false} ProjectSameFields(fs: seq<Field>)
    requires forall i | 0 <= i < |fs| :: Valid(fs[i].value) && !Unsignable(fs[i].value)
    ensures CanonicaliseFields(ProjectFields(fs)) == CanonicaliseFields(fs)
  {
    if fs != [] {
      ProjectSame(fs[0].value);
      ProjectSameFields(fs[1..]);
      assert !Unsignable(fs[0].value);
      assert ProjectFields(fs)[1..] == ProjectFields(fs[1..]);
    }
  }

  /**
   * A value that can be signed reaches the receiver with the canonical text it was signed under:
   * printing it and parsing it back changes at most a Date into its ISO string.
   */
  lemma WireTransparent(v: Value)
    requires Valid(v) && !Unsignable(v)
    ensures OnTheWire(v).Some? && Valid(OnTheWire(v).value)
    ensures Same(v, OnTheWire(v).value)
    ensures CanonicalJson(OnTheWire(v).value) == CanonicalJson(v) && CanonicalJson(v).Some?
  {
    ProjectIsJson(v);
    ParsePrint(Project(v));
    JsonIsValid(Project(v));
    ProjectSame(v);
    ThrowsExactly(v);
    CanonicalSame(v, Project(v));
  }

  lemma {:induction false} JsonIsValid(v: Value)
    requires IsJson(v)
    ensures Valid(v) && !Unsignable(v)
  {
    match v
    case Arr(items) => forall i | 0 <= i < |items| { JsonIsValid(items[i]); }
    case Obj(fields) => forall i | 0 <= i < |fields| { JsonIsValid(fields[i].value); }
    case _ =>
  }

  lemma {:induction false} ParsedValue(v: Value)
    requires IsParsed(v)
    ensures Valid(v) && (IsJson(v) <==> !Unsignable(v))
  {
    match v
    case Arr(items) => forall i | 0 <= i < |items| { ParsedValue(items[i]); }
    case Obj(fields) => forall i | 0 <= i < |fields| { ParsedValue(fields[i].value); }
    case _ =>
  }

  /** Whatever text is published, what it parses to is a value canonicalise is defined on, throws included. */
  lemma ParsedIsValid(t: Str)
    ensures Parse(t).Some? ==> Valid(Parse(t).value)
  {
    ParseIsParsed(t);
    if Parse(t).Some? {
      ParsedValue(Parse(t).value);
    }
  }

  /**
   * Among the values texts parse to, the ones that can be signed are exactly the JSON values; the others
   * hold a number too large.
   */
  lemma ParseExactly(v: Value)
    ensures IsJson(v) <==> !Unsignable(v) && exists t :: Parse(t) == Some(v)
  {
    if IsJson(v) {
      ParsePrint(v);
      JsonIsValid(v);
    }
    if t :| Parse(t) == Some(v) {
      ParseIsParsed(t);
      ParsedValue(v);
    }
  }

  // ---------- the loop ----------

  lemma {:induction false} InsertImage(f: Field, g: Field, fs: seq<Field>, a: seq<Field>)
    requires f.key == g.key && Canonicalise(f.value) == Some(g.value) && Image(fs, a)
    ensures Image(Insert(KeyLe, f, fs), Insert(KeyLe, g, a))
  {
    if fs != [] && !KeyLe(f, fs[0]) {
      InsertImage(f, g, fs[1..], a[1..]);
    }
  }

  /** Sorting looks at keys only, so it may come before or after canonicalising the values. */
  lemma {:induction false} SortImage(fs: seq<Field>, a: seq<Field>)
    requires Image(fs, a)
    ensures Image(Sort(KeyLe, fs), Sort(KeyLe, a))
  {
    if fs != [] {
      SortImage(fs[1..], a[1..]);
      InsertImage(fs[0], a[0], Sort(KeyLe, fs[1..]), Sort(KeyLe, a[1..]));
    }
  }

  lemma {:induction false} DefineAllAppend(out: seq<Field>, fs: seq<Field>, f: Field)
    ensures DefineAll(out, fs + [f]) == Define(DefineAll(out, fs), f)
    decreases |fs|
  {
    if fs == [] {
      assert fs + [f] == [f];
    } else {
      assert (fs + [f])[1..] == fs[1..] + [f];
      DefineAllAppend(Define(out, fs[0]), fs[1..], f);
    }
  }

  method CanonicaliseArray(items: seq<Value>) returns (r: Option<Value>)
    ensures r == Canonicalise(Arr(items))
    decreases items, 0
  {
    var out := [];
    CanonicaliseItemsAt(items);
    for i := 0 to |items|
      invariant |out| == i
      invariant forall k | 0 <= k < i :: Canonicalise(items[k]) == Some(out[k])
    {
      var c := CanonicaliseValue(items[i]);
      if c.None? {
        return None;
      }
      out := out + [c.value];
    }
    assert out == CanonicaliseItems(items).value;
    return Some(Arr(out));
  }

  lemma SortedThrows(fields: seq<Field>, i: nat)
    requires i < |Sort(KeyLe, fields)| && Canonicalise(Sort(KeyLe, fields)[i].value).None?
    ensures Canonicalise(Obj(fields)).None?
  {
    var j := SortedFrom(fields, i);
    CanonicaliseFieldsAt(fields);
  }

  lemma SortedFrom(fields: seq<Field>, i: nat) returns (j: nat)
    requires i < |Sort(KeyLe, fields)|
    ensures j < |fields| && fields[j] == Sort(KeyLe, fields)[i]
  {
    SortCorrect(KeyLe, fields);
    assert Sort(KeyLe, fields)[i] in multiset(fields);
    j :| 0 <= j < |fields| && fields[j] == Sort(KeyLe, fields)[i];
  }

  lemma SortedAllDone(fields: seq<Field>, done: seq<Field>)
    requires Image(Sort(KeyLe, fields), done)
    ensures CanonicaliseFields(fields).Some?
  {
    SortCorrect(KeyLe, fields);
    forall j | 0 <= j < |fields| ensures Canonicalise(fields[j].value).Some? {
      assert fields[j] in multiset(Sort(KeyLe, fields));
    }
    CanonicaliseFieldsAt(fields);
  }

  lemma SameImage(fs: seq<Field>, a: seq<Field>, b: seq<Field>)
    requires Image(fs, a) && Image(fs, b)
    ensures a == b
  {
  }

  lemma SortedDone(fields: seq<Field>, done: seq<Field>)
    requires Image(Sort(KeyLe, fields), done)
    ensures Canonicalise(Obj(fields)) == Some(Obj(DefineAll([], done)))
  {
    SortedAllDone(fields, done);
    CanonicaliseFieldsAt(fields);
    var a := CanonicaliseFields(fields).value;
    SortImage(fields, a);
    SameImage(Sort(KeyLe, fields), done, Sort(KeyLe, a));
  }

  lemma ImageAppend(fs: seq<Field>, a: seq<Field>, i: nat, f: Field)
    requires i < |fs| && Image(fs[..i], a)
    requires f.key == fs[i].key && Canonicalise(fs[i].value) == Some(f.value)
    ensures Image(fs[..i + 1], a + [f])
  {
    assert fs[..i + 1] == fs[..i] + [fs[i]];
  }

  method CanonicaliseObject(fields: seq<Field>) returns (r: Option<Value>)
    ensures r == Canonicalise(Obj(fields))
    decreases fields, 0
  {
    var sorted := Sort(KeyLe, fields);
    var out := [];
    ghost var done: seq<Field> := [];
    for i := 0 to |sorted|
      invariant Image(sorted[..i], done)
      invariant out == DefineAll([], done)
    {
      ghost var j := SortedFrom(fields, i);
      var c := CanonicaliseValue(sorted[i].value);
      if c.None? {
        SortedThrows(fields, i);
        return None;
      }
      var f := Field(sorted[i].key, c.value);
      ImageAppend(sorted, done, i, f);
      DefineAllAppend([], done, f);
      out, done := Define(out, f), done + [f];
    }
    assert sorted[..|sorted|] == sorted;
    SortedDone(fields, done);
    return Some(Obj(out));
  }

  /** canonicalise as written: sort the entries, then define each canonicalised one on a fresh object. */
  method CanonicaliseValue(v: Value) returns (r: Option<Value>)
    ensures r == Canonicalise(v)
    decreases v, 1
  {
    match v
    case Null => r := Some(v);
    case Bool(_) => r := Some(v);
    case Num(_) => r := Some(v);
    case Text(_) => r := Some(v);
    case Stamp(iso) => r := Some(Text(iso));
    case Arr(items) => r := CanonicaliseArray(items);
    case Obj(fields) => r := CanonicaliseObject(fields);
    case _ => r := None;
  }
}
