/** The canonical form described from outside: which value it is, and in which order its keys stand. */
module CanonicalOrder {
  import opened Prelude
  import opened Json
  import opened Canonical

  // ---------- keys ascend ----------

  /** Keys that are no array indices ascend by code unit. */
  ghost predicate KeysAscend(fs: seq<Field>) {
    forall i, j | 0 <= i < j < |fs| && !IsArrayIndex(fs[i].key) && !IsArrayIndex(fs[j].key) ::
      LexLe(fs[i].key, fs[j].key)
  }

  /** In every object, at every depth. */
  ghost predicate Ascending(v: Value) {
    match v
    case Arr(items) => forall i | 0 <= i < |items| :: Ascending(items[i])
    case Obj(fields) => KeysAscend(fields) && forall i | 0 <= i < |fields| :: Ascending(fields[i].value)
    case _ => true
  }

  /** f's key, if it is no array index, is none of theirs that are none either, and comes behind them. */
  ghost predicate Above(out: seq<Field>, f: Field) {
    forall i | 0 <= i < |out| && !IsArrayIndex(out[i].key) && !IsArrayIndex(f.key) :: LexLe(out[i].key, f.key)
  }

  lemma ConsAscends(f: Field, fs: seq<Field>)
    requires KeysAscend(fs)
    requires !IsArrayIndex(f.key) ==> forall g <- fs | !IsArrayIndex(g.key) :: LexLe(f.key, g.key)
    ensures KeysAscend([f] + fs)
  {
    var r := [f] + fs;
    forall i, j | 0 <= i < j < |r| && !IsArrayIndex(r[i].key) && !IsArrayIndex(r[j].key)
      ensures LexLe(r[i].key, r[j].key)
    {
      assert r[j] == fs[j - 1] && fs[j - 1] in fs;
    }
  }

  /** Defining a property behind all others, or an array index anywhere, keeps the keys ascending. */
  lemma {:induction false} DefineAscends(out: seq<Field>, f: Field)
    requires KeysAscend(out) && Above(out, f)
    requires forall i | 0 <= i < |out| :: out[i].key != f.key
    ensures KeysAscend(Define(out, f))
    decreases |out|
  {
    if out == [] {
    } else if IndexBefore(f.key, out[0].key) {
      ConsAscends(f, out);
    } else {
      DefineAscends(out[1..], f);
      DefineKeeps(out[1..], f);
      var r := Define(out[1..], f);
      forall g <- r | !IsArrayIndex(g.key) && !IsArrayIndex(out[0].key) ensures LexLe(out[0].key, g.key) {
        if g != f {
          var k :| 0 <= k < |out[1..]| && out[1..][k] == g;
          assert out[k + 1] == g;
        }
      }
      ConsAscends(out[0], r);
    }
  }

  lemma {:induction false} DefineAllAscends(out: seq<Field>, fs: seq<Field>)
    requires KeysAscend(out) && DistinctKeys(out + fs)
    requires forall f <- fs :: Above(out, f)
    requires forall i, j | 0 <= i < j < |fs| :: LexLe(fs[i].key, fs[j].key)
    ensures KeysAscend(DefineAll(out, fs))
    decreases |fs|
  {
    if fs != [] {
      var next := Define(out, fs[0]);
      forall i | 0 <= i < |out| ensures out[i].key != fs[0].key {
        assert (out + fs)[i] == out[i] && (out + fs)[|out|] == fs[0];
      }
      assert fs[0] in fs;
      DefineAscends(out, fs[0]);
      DefineKeeps(out, fs[0]);
      DefineNew(out, fs[0]);
      assert fs == [fs[0]] + fs[1..];
      assert multiset(next + fs[1..]) == multiset(out + fs);
      DistinctKeysPermute(out + fs, next + fs[1..]);
      forall f <- fs[1..] ensures Above(next, f) { StillAbove(out, fs, f, next); }
      DefineAllAscends(next, fs[1..]);
    }
  }

  lemma StillAbove(out: seq<Field>, fs: seq<Field>, f: Field, next: seq<Field>)
    requires fs != [] && f in fs[1..] && Above(out, f)
    requires forall i, j | 0 <= i < j < |fs| :: LexLe(fs[i].key, fs[j].key)
    requires forall g <- next :: g == fs[0] || g in out
    ensures Above(next, f)
  {
    var k :| 0 <= k < |fs[1..]| && fs[1..][k] == f;
    assert fs[k + 1] == f && LexLe(fs[0].key, fs[k + 1].key);
    forall i | 0 <= i < |next| && !IsArrayIndex(next[i].key) && !IsArrayIndex(f.key) ensures LexLe(next[i].key, f.key) {
      assert next[i] in next;
      if next[i] != fs[0] {
        var l :| 0 <= l < |out| && out[l] == next[i];
      }
    }
  }

  lemma AssembleAscends(fs: seq<Field>)
    requires DistinctKeys(fs)
    ensures KeysAscend(Assemble(fs))
  {
    KeyLeIsOrder();
    SortCorrect(KeyLe, fs);
    var sorted := Sort(KeyLe, fs);
    DistinctKeysPermute(fs, sorted);
    assert [] + sorted == sorted;
    forall i, j | 0 <= i < j < |sorted| ensures LexLe(sorted[i].key, sorted[j].key) {
      assert KeyLe(sorted[i], sorted[j]);
    }
    DefineAllAscends([], sorted);
  }

  lemma ImageDistinct(fs: seq<Field>, a: seq<Field>)
    requires DistinctKeys(fs) && Image(fs, a)
    ensures DistinctKeys(a)
  {
  }

  /** Whatever order the keys were written in, the canonical form has them ascending, in every object. */
  lemma {:induction false} CanonicalAscending(v: Value)
    requires Valid(v) && Canonicalise(v).Some?
    ensures Ascending(Canonicalise(v).value)
    decreases v
  {
    match v
    case Arr(items) =>
      CanonicaliseItemsAt(items);
      var out := CanonicaliseItems(items).value;
      forall i | 0 <= i < |out| ensures Ascending(out[i]) { CanonicalAscending(items[i]); }
    case Obj(fields) =>
      CanonicaliseFieldsAt(fields);
      var a := CanonicaliseFields(fields).value;
      ImageDistinct(fields, a);
      AssembleAscends(a);
      AssembleKeeps(a);
      var out := Assemble(a);
      forall i | 0 <= i < |out| ensures Ascending(out[i].value) {
        assert out[i] in multiset(a);
        var j :| 0 <= j < |a| && a[j] == out[i];
        CanonicalAscending(fields[j].value);
      }
    case _ =>
  }

  // ---------- it is the value it was made from ----------

  lemma SameAssembled(fields: seq<Field>, a: seq<Field>, out: seq<Field>)
    requires DistinctKeys(fields) && |a| == |fields| && forall i | 0 <= i < |a| :: a[i].key == fields[i].key
    requires forall i | 0 <= i < |a| :: Same(fields[i].value, a[i].value)
    requires multiset(out) == multiset(a) && DistinctKeys(out)
    ensures Same(Obj(fields), Obj(out))
  {
    forall i | 0 <= i < |fields|
      ensures Get(out, fields[i].key).Some? && Same(fields[i].value, Get(out, fields[i].key).value)
    {
      assert a[i] in multiset(out);
      var j :| 0 <= j < |out| && out[j] == a[i];
      GetAt(out, j);
    }
    forall j | 0 <= j < |out| ensures Get(fields, out[j].key).Some? {
      assert out[j] in multiset(a);
      var i :| 0 <= i < |a| && a[i] == out[j];
      GetAt(fields, i);
    }
  }

  /** The canonical form has the same keys and values, at every depth. */
  lemma {:induction false} CanonicalIsSame(v: Value)
    requires Valid(v) && Canonicalise(v).Some?
    ensures Same(v, Canonicalise(v).value)
    decreases v
  {
    match v
    case Arr(items) =>
      CanonicaliseItemsAt(items);
      forall i | 0 <= i < |items| { CanonicalIsSame(items[i]); }
    case Obj(fields) =>
      CanonicaliseFieldsAt(fields);
      var a := CanonicaliseFields(fields).value;
      ImageDistinct(fields, a);
      AssembleKeeps(a);
      forall i | 0 <= i < |a| ensures Same(fields[i].value, a[i].value) { CanonicalIsSame(fields[i].value); }
      SameAssembled(fields, a, Assemble(a));
    case _ =>
  }

  // ---------- and the only such value ----------

  /** Array indices by number, then everything else by code unit. */
  predicate KeyBefore(a: Str, b: Str) {
    if IsArrayIndex(a) && IsArrayIndex(b) then |a| < |b| || (|a| == |b| && LexLe(a, b))
    else if IsArrayIndex(a) || IsArrayIndex(b) then IsArrayIndex(a)
    else LexLe(a, b)
  }

  lemma KeyBeforeIsOrder()
    ensures TotalPreorder(KeyBefore)
  {
    LexLeIsOrder();
  }

  function Keys(fs: seq<Field>): seq<Str> { seq(|fs|, i requires 0 <= i < |fs| => fs[i].key) }

  lemma KeysSorted(fs: seq<Field>)
    requires ObjectOrder(fs) && KeysAscend(fs)
    ensures Sorted(KeyBefore, Keys(fs))
  {
    var ks := Keys(fs);
    forall i, j | 0 <= i < j < |ks| ensures KeyBefore(ks[i], ks[j]) {
      assert !IndexBefore(fs[j].key, fs[i].key) && fs[i].key != fs[j].key;
      LexLeTotal(ks[i], ks[j]);
    }
  }

  lemma KeyBeforeAntisymmetric(ks: seq<Str>)
    ensures AntisymmetricOn(KeyBefore, ks)
  {
    forall i, j | 0 <= i < |ks| && 0 <= j < |ks| && KeyBefore(ks[i], ks[j]) && KeyBefore(ks[j], ks[i])
      ensures ks[i] == ks[j]
    {
      LexLeTotal(ks[i], ks[j]);
    }
  }

  lemma {:induction false} DistinctKeyOnce(ks: seq<Str>, k: Str)
    requires forall i, j | 0 <= i < j < |ks| :: ks[i] != ks[j]
    ensures multiset(ks)[k] == if k in ks then 1 else 0
    decreases |ks|
  {
    if ks != [] {
      assert ks == [ks[0]] + ks[1..];
      DistinctKeyOnce(ks[1..], k);
    }
  }

  lemma KeysIn(fs: seq<Field>, gs: seq<Field>, k: Str)
    requires Same(Obj(fs), Obj(gs)) && DistinctKeys(gs)
    ensures k in Keys(fs) <==> k in Keys(gs)
  {
    if k in Keys(fs) {
      var i :| 0 <= i < |fs| && Keys(fs)[i] == k;
      var j := PartnerRight(fs, gs, i);
      assert Keys(gs)[j] == k;
    }
    if k in Keys(gs) {
      var j :| 0 <= j < |gs| && Keys(gs)[j] == k;
      var i := PartnerLeft(fs, gs, j);
      assert Keys(fs)[i] == k;
    }
  }

  lemma SameKeys(fs: seq<Field>, gs: seq<Field>)
    requires ObjectOrder(fs) && KeysAscend(fs) && ObjectOrder(gs) && KeysAscend(gs) && Same(Obj(fs), Obj(gs))
    ensures Keys(fs) == Keys(gs)
  {
    forall k: Str ensures multiset(Keys(fs))[k] == multiset(Keys(gs))[k] {
      KeysIn(fs, gs, k);
      DistinctKeyOnce(Keys(fs), k);
      DistinctKeyOnce(Keys(gs), k);
    }
    assert multiset(Keys(fs)) == multiset(Keys(gs));
    KeyBeforeIsOrder();
    KeysSorted(fs);
    KeysSorted(gs);
    KeyBeforeAntisymmetric(Keys(fs));
    SortedUnique(KeyBefore, Keys(fs), Keys(gs));
  }

  lemma MatchedValues(fs: seq<Field>, gs: seq<Field>, i: nat)
    requires Keys(fs) == Keys(gs) && DistinctKeys(gs) && Same(Obj(fs), Obj(gs)) && i < |fs|
    ensures |gs| == |fs| && fs[i].key == gs[i].key && Same(fs[i].value, gs[i].value)
  {
    assert |Keys(fs)| == |fs| && |Keys(gs)| == |gs| && Keys(fs)[i] == fs[i].key && Keys(gs)[i] == gs[i].key;
    GetAt(gs, i);
  }

  /** Two JSON values that are the same up to key order are equal when their keys ascend. */
  lemma {:induction false} AscendingUnique(v: Value, w: Value)
    requires IsJson(v) && IsJson(w) && Ascending(v) && Ascending(w) && Same(v, w)
    ensures v == w
    decreases v
  {
    match v
    case Arr(items) =>
      forall i | 0 <= i < |items| ensures items[i] == w.items[i] { AscendingUnique(items[i], w.items[i]); }
    case Obj(fields) =>
      SameKeys(fields, w.fields);
      assert |fields| == |Keys(fields)| == |w.fields|;
      forall i | 0 <= i < |fields| ensures fields[i] == w.fields[i] {
        MatchedValues(fields, w.fields, i);
        AscendingUnique(fields[i].value, w.fields[i].value);
      }
    case _ =>
  }

  /**
   * The canonical form of a value is the one JSON value with the same keys and values at every depth whose
   * objects list array indices first, by number, and every other key ascending.
   */
  lemma CanonicalExactly(v: Value, w: Value)
    requires Valid(v)
    ensures Canonicalise(v) == Some(w) <==> IsJson(w) && Same(v, w) && Ascending(w)
  {
    if Canonicalise(v) == Some(w) {
      CanonicalIsJson(v);
      CanonicalIsSame(v);
      CanonicalAscending(v);
    }
    if IsJson(w) && Same(v, w) && Ascending(w) {
      JsonIsValid(w);
      CanonicalSame(v, w);
      var c := Canonicalise(w).value;
      CanonicalIsJson(w);
      CanonicalIsSame(w);
      CanonicalAscending(w);
      AscendingUnique(w, c);
    }
  }
}
