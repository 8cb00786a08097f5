/** What JSON.stringify writes, in its own letters. */
module JsonText {
  import opened Prelude
  import opened Json
  import opened ArrayIndices
  import opened Canonical

  /** Every unit but quotes, backslashes, controls and surrogates is written as it is. */
  predicate Plain(s: Str) {
    forall i | 0 <= i < |s| :: s[i] >= 32 && s[i] != 34 && s[i] != 92 && !(0xD800 <= s[i] < 0xE000)
  }

  lemma {:induction false} PlainStays(s: Str)
    requires Plain(s)
    ensures Escape(s) == s
    decreases |s|
  {
    if s != [] {
      PlainStays(s[1..]);
      assert s == [s[0]] + s[1..];
    }
  }

  lemma PlainQuoted(s: Str)
    requires Plain(s)
    ensures Print(Text(s)) == Lit("\"") + s + Lit("\"")
  {
    PlainStays(s);
    assert Lit("\"") == [34];
  }

  lemma OneUnit(c: CodeUnit)
    ensures Escape([c]) == EscapeUnit(c)
  {
    assert [c][1..] == [];
    assert Escape([c]) == EscapeUnit(c) + Escape([c][1..]);
  }

  /** The two-letter escapes. */
  lemma ShortEscapes()
    ensures Escape([34]) == Lit("\\\"") && Escape([92]) == Lit("\\\\")
    ensures Escape([8]) == Lit("\\b") && Escape([9]) == Lit("\\t") && Escape([10]) == Lit("\\n")
    ensures Escape([12]) == Lit("\\f") && Escape([13]) == Lit("\\r")
  {
    OneUnit(34);
    OneUnit(92);
    OneUnit(8);
    OneUnit(9);
    OneUnit(10);
    OneUnit(12);
    OneUnit(13);
  }

  function LowerHex(d: nat): CodeUnit
    requires d < 16
  {
    Lit("0123456789abcdef")[d]
  }

  lemma HexIsLower(d: nat)
    requires d < 16
    ensures HexDigit(d) == LowerHex(d)
  {
  }

  /** Other controls and lone surrogates are written as a lower-case six-letter escape. */
  lemma HexEscapes(c: CodeUnit)
    requires (c < 8 || c == 11 || 13 < c < 32) || 0xD800 <= c < 0xE000
    ensures Escape([c])
         == Lit("\\u") + [LowerHex(c / 4096), LowerHex(c / 256 % 16), LowerHex(c / 16 % 16), LowerHex(c % 16)]
  {
    OneUnit(c);
    HexIsLower(c / 4096);
    HexIsLower(c / 256 % 16);
    HexIsLower(c / 16 % 16);
    HexIsLower(c % 16);
    assert EscapeUnit(c) == HexEscape(c);
    assert Lit("\\u") == [92, 117];
  }

  /** A pair of surrogates is written as it is. */
  lemma PairStays(high: CodeUnit, low: CodeUnit, rest: Str)
    requires 0xD800 <= high < 0xDC00 && 0xDC00 <= low < 0xE000
    ensures Escape([high, low] + rest) == [high, low] + Escape(rest)
  {
    assert ([high, low] + rest)[2..] == rest;
  }

  /** Integers are written in decimal, without leading zeros, behind a minus sign when negative. */
  lemma IntegersExactly(n: int)
    ensures n >= 0 ==> Digits(Print(Num(n))) && NoLeadingZero(Print(Num(n))) && Decimal(Print(Num(n))) == n
    ensures n < 0 ==> Print(Num(n)) == Lit("-") + Print(Num(-n))
  {
    assert Lit("-") == [45];
    if n >= 0 {
      PrintedDecimal(n);
    }
  }

  /** Literals, and the two empty collections. */
  lemma AtomsExactly()
    ensures Print(Null) == Lit("null") && Print(Bool(true)) == Lit("true") && Print(Bool(false)) == Lit("false")
    ensures Print(Arr([])) == Lit("[]") && Print(Obj([])) == Lit("{}")
  {
    assert Print(Arr([])) == [91] + [] + [93];
    assert Print(Obj([])) == [123] + [] + [125];
  }

  /** What stands between two brackets: the items' texts with a comma between neighbours. */
  function Listed(items: seq<Str>): Str {
    if items == [] then [] else if |items| == 1 then items[0] else items[0] + Lit(",") + Listed(items[1..])
  }

  lemma CommaSpelled()
    ensures Lit(",") == [44]
  {
  }

  function ItemTexts(items: seq<Value>): seq<Str> {
    seq(|items|, i requires 0 <= i < |items| => Print(items[i]))
  }

  lemma ItemTextsStep(items: seq<Value>)
    requires items != []
    ensures ItemTexts(items) == [Print(items[0])] + ItemTexts(items[1..])
  {
  }

  lemma {:induction false} ItemsListed(items: seq<Value>)
    ensures PrintItems(items) == Listed(ItemTexts(items))
    decreases |items|
  {
    if items != [] {
      ItemsListed(items[1..]);
      ItemTextsStep(items);
      ListedStep(Print(items[0]), ItemTexts(items[1..]));
    }
  }

  /** A member: the quoted key, a colon, the value's text. */
  function Member(f: Field): Str {
    Print(Text(f.key)) + Lit(":") + Print(f.value)
  }

  lemma MemberSpelled(f: Field)
    ensures Member(f) == Quote(f.key) + [58] + Print(f.value)
  {
    assert Lit(":") == [58];
  }

  function MemberTexts(fs: seq<Field>): seq<Str> {
    seq(|fs|, i requires 0 <= i < |fs| => Member(fs[i]))
  }

  lemma MemberTextsStep(fs: seq<Field>)
    requires fs != []
    ensures MemberTexts(fs) == [Member(fs[0])] + MemberTexts(fs[1..])
  {
  }

  lemma ListedStep(first: Str, rest: seq<Str>)
    ensures Listed([first] + rest) == first + (if rest == [] then [] else [44] + Listed(rest))
  {
    CommaSpelled();
    assert ([first] + rest)[1..] == rest;
  }

  lemma {:induction false} MembersListed(fs: seq<Field>)
    ensures PrintMembers(fs) == Listed(MemberTexts(fs))
    decreases |fs|
  {
    if fs != [] {
      MembersListed(fs[1..]);
      MemberTextsStep(fs);
      ListedStep(Member(fs[0]), MemberTexts(fs[1..]));
      MemberSpelled(fs[0]);
    }
  }

  /** Arrays and objects of any size. */
  lemma CollectionsExactly(items: seq<Value>, fs: seq<Field>)
    ensures Print(Arr(items)) == Lit("[") + Listed(ItemTexts(items)) + Lit("]")
    ensures Print(Obj(fs)) == Lit("{") + Listed(MemberTexts(fs)) + Lit("}")
  {
    ItemsListed(items);
    MembersListed(fs);
    assert Lit("[") == [91] && Lit("]") == [93] && Lit("{") == [123] && Lit("}") == [125];
  }

  // ---------- what is left out ----------

  lemma {:induction false} ItemsProjected(items: seq<Value>, i: nat)
    ensures |ProjectItems(items)| == |items|
    ensures i < |items| ==> ProjectItems(items)[i] == Project(items[i])
    decreases |items|
  {
    if items != [] {
      ItemsProjected(items[1..], if i == 0 then 0 else i - 1);
    }
  }

  ghost predicate Kept(fs: seq<Field>, i: int, f: Field) {
    && 0 <= i < |fs| && !fs[i].value.Undefined? && !fs[i].value.Function?
    && f == Field(fs[i].key, Project(fs[i].value))
  }

  lemma {:induction false} FieldsProjected(fs: seq<Field>, f: Field)
    ensures f in ProjectFields(fs) <==> exists i :: Kept(fs, i, f)
    decreases |fs|
  {
    if fs != [] {
      FieldsProjected(fs[1..], f);
      if i :| Kept(fs, i, f) {
        assert i > 0 ==> Kept(fs[1..], i - 1, f);
      }
      if i :| Kept(fs[1..], i, f) {
        assert Kept(fs, i + 1, f);
      }
      if !fs[0].value.Undefined? && !fs[0].value.Function? {
        assert Kept(fs, 0, Field(fs[0].key, Project(fs[0].value)));
      }
    }
  }

  /** Nothing is written for undefined or a function: as an item it reads null, as a property it is gone. */
  lemma StringifiedExactly(v: Value, items: seq<Value>, i: nat, fs: seq<Field>, f: Field)
    ensures Stringify(v)
         == match v
            case Undefined => None
            case Function => None
            case BadStamp => Some(Lit("null"))
            case NonFinite => Some(Lit("null"))
            case Stamp(iso) => Some(Print(Text(iso)))
            case Arr(_) => Some(Print(Project(v)))
            case Obj(_) => Some(Print(Project(v)))
            case _ => Some(Print(v))
    ensures Project(Arr(items)).Arr? && |Project(Arr(items)).items| == |items|
    ensures i < |items| ==>
      Project(Arr(items)).items[i] == (if items[i].Undefined? || items[i].Function? then Null else Project(items[i]))
    ensures Project(Obj(fs)).Obj?
    ensures f in Project(Obj(fs)).fields <==> exists k :: Kept(fs, k, f)
  {
    ItemsProjected(items, i);
    FieldsProjected(fs, f);
  }

  // ---------- the bounds of a double ----------

  lemma {:induction false} PowerJoins(m: nat, n: nat)
    ensures Power(2, m + n) == Power(2, m) * Power(2, n)
    decreases m
  {
    if m > 0 {
      PowerJoins(m - 1, n);
      assert Power(2, m + n) == 2 * Power(2, m - 1 + n);
    }
  }

  lemma WordPower()
    ensures Power(2, 10) == 1024 && Power(2, 64) == 0x1_0000_0000_0000_0000
  {
    assert Power(2, 4) == 2 * (2 * (2 * (2 * Power(2, 0))));
    PowerJoins(4, 4);
    PowerJoins(8, 8);
    PowerJoins(16, 16);
    PowerJoins(32, 32);
    PowerJoins(2, 8);
    assert Power(2, 2) == 2 * (2 * Power(2, 0));
  }

  lemma WidePower()
    ensures Power(2, 320) == WIDE
  {
    WordPower();
    PowerJoins(64, 64);
    PowerJoins(128, 128);
    PowerJoins(64, 256);
  }

  lemma Times(word: int, unit: int, wide: int)
    ensures word * (wide * (wide * wide)) - unit * (wide * (wide * wide)) == (word - unit) * wide * wide * wide
  {
    var cube := wide * (wide * wide);
    assert (word - unit) * wide * wide * wide == (word - unit) * cube;
  }

  /** Magnitudes are finite below 2^1024 - 2^970, halfway from the largest double to 2^1024; safe below 2^53. */
  lemma DoublesExactly(n: int)
    ensures Finite(n) <==> var bound: int := Power(2, 1024) - Power(2, 970); -bound < n < bound
    ensures SafeInteger(n) <==> var bound: int := Power(2, 53); -bound < n < bound
  {
    WordPower();
    WidePower();
    PowerJoins(320, 320);
    PowerJoins(320, 640);
    PowerJoins(64, 960);
    PowerJoins(10, 960);
    Times(Power(2, 64), Power(2, 10), WIDE);
    PowerOfSafe();
  }

  lemma PowerOfSafe()
    ensures Power(2, 53) == 0x20_0000_0000_0000
  {
    WordPower();
    PowerJoins(11, 53);
    assert Power(2, 11) == 2 * Power(2, 10);
  }
}
