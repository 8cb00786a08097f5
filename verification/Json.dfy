/** JavaScript values, the JSON text of section 2 of RFC 8259, its printer and its parser. */
module Json {
  import opened Prelude

  /** What `typeof` and `instanceof` can tell apart. A valid Date is the ISO string it prints as. */
  datatype Value =
    | Null
    | Bool(b: bool)
    | Num(n: int)
    | Text(s: Str)
    | Arr(items: seq<Value>)
    | Obj(fields: seq<Field>)
    | Stamp(iso: Str)
    | BadStamp
    | NonFinite
    | Undefined
    | Function

  datatype Field = Field(key: Str, value: Value)

  // ---------- own properties and their enumeration order ----------

  predicate IsDigit(c: CodeUnit) { 48 <= c <= 57 }

  /** The keys an object enumerates first, in numeric order: canonical decimals below 2^32 - 1. */
  predicate IsArrayIndex(key: Str) {
    && 1 <= |key| <= 10
    && (forall i | 0 <= i < |key| :: IsDigit(key[i]))
    && (key[0] != 48 || |key| == 1)
    && (|key| == 10 ==> LexLe(key, Lit("4294967294")))
  }

  /** `a` is enumerated before `b` whichever was defined first. */
  predicate IndexBefore(a: Str, b: Str) {
    && IsArrayIndex(a)
    && (IsArrayIndex(b) ==> |a| < |b| || (|a| == |b| && a != b && LexLe(a, b)))
  }

  /** Defines an own property: in place when the key exists, otherwise where enumeration puts it. */
  function Define(out: seq<Field>, f: Field): (r: seq<Field>) {
    if out == [] then [f]
    else if out[0].key == f.key then [f] + out[1..]
    else if IndexBefore(f.key, out[0].key) then [f] + out
    else [out[0]] + Define(out[1..], f)
  }

  function DefineAll(out: seq<Field>, fs: seq<Field>): seq<Field>
    decreases |fs|
  {
    if fs == [] then out else DefineAll(Define(out, fs[0]), fs[1..])
  }

  predicate DistinctKeys(fs: seq<Field>) {
    forall i, j | 0 <= i < j < |fs| :: fs[i].key != fs[j].key
  }

  /** The own properties of some JavaScript object, in the order it enumerates them. */
  predicate ObjectOrder(fs: seq<Field>) {
    && DistinctKeys(fs)
    && (forall i, j | 0 <= i < j < |fs| :: !IndexBefore(fs[j].key, fs[i].key))
  }

  /** f's key is none of theirs, and f is not enumerated before any of them. */
  ghost predicate Behind(out: seq<Field>, f: Field) {
    forall i | 0 <= i < |out| :: out[i].key != f.key && !IndexBefore(f.key, out[i].key)
  }

  lemma LastIsBehind(out: seq<Field>, f: Field)
    requires ObjectOrder(out + [f])
    ensures Behind(out, f)
  {
    var all := out + [f];
    assert all[|out|] == f;
    forall i | 0 <= i < |out| ensures out[i].key != f.key && !IndexBefore(f.key, out[i].key) {
      assert all[i] == out[i];
    }
  }

  lemma {:induction false} DefineLast(out: seq<Field>, f: Field)
    requires Behind(out, f)
    ensures Define(out, f) == out + [f]
    decreases |out|
  {
    if out != [] {
      DefineLast(out[1..], f);
      assert out == [out[0]] + out[1..];
    }
  }

  /** Redefining an object's properties in enumeration order rebuilds the same object. */
  lemma {:induction false} DefineAllInOrder(out: seq<Field>, fs: seq<Field>)
    requires ObjectOrder(out + fs)
    ensures DefineAll(out, fs) == out + fs
    decreases |fs|
  {
    if fs == [] {
    } else {
      var front := out + [fs[0]];
      assert front == (out + fs)[..|out| + 1];
      LastIsBehind(out, fs[0]);
      DefineLast(out, fs[0]);
      assert front + fs[1..] == out + fs;
      DefineAllInOrder(front, fs[1..]);
    }
  }

  lemma Rebuilt(fs: seq<Field>)
    requires ObjectOrder(fs)
    ensures DefineAll([], fs) == fs
  {
    assert [] + fs == fs;
    DefineAllInOrder([], fs);
  }

  lemma IndexBeforeIsOrder(a: Str, b: Str, c: Str)
    ensures IndexBefore(a, b) ==> !IndexBefore(b, a)
    ensures IndexBefore(a, b) && IndexBefore(b, c) ==> IndexBefore(a, c)
  {
    LexLeTotal(a, b);
    LexLeTotal(b, c);
    if LexLe(a, b) && LexLe(b, c) {
      LexLeTransitive(a, b, c);
    }
  }

  lemma ConsKeepsOrder(f: Field, fs: seq<Field>)
    requires ObjectOrder(fs)
    requires forall j | 0 <= j < |fs| :: fs[j].key != f.key && !IndexBefore(fs[j].key, f.key)
    ensures ObjectOrder([f] + fs)
  {
    var r := [f] + fs;
    forall i, j | 0 <= i < j < |r| ensures r[i].key != r[j].key && !IndexBefore(r[j].key, r[i].key) {
      assert r[j] == fs[j - 1];
    }
  }

  lemma {:induction false} DefineKeeps(out: seq<Field>, f: Field)
    ensures forall g <- Define(out, f) :: g == f || g in out
    decreases |out|
  {
    if out != [] && out[0].key != f.key && !IndexBefore(f.key, out[0].key) {
      DefineKeeps(out[1..], f);
    }
  }

  lemma DefineInFront(out: seq<Field>, f: Field)
    requires ObjectOrder(out) && out != [] && IndexBefore(f.key, out[0].key)
    ensures ObjectOrder([f] + out)
  {
    forall j | 0 <= j < |out| ensures out[j].key != f.key && !IndexBefore(out[j].key, f.key) {
      IndexBeforeIsOrder(f.key, out[0].key, out[j].key);
      IndexBeforeIsOrder(out[j].key, f.key, out[0].key);
    }
    ConsKeepsOrder(f, out);
  }

  /** Defining one more property, whether its key is new or not, leaves the properties of an object. */
  lemma {:induction false} DefineOrdered(out: seq<Field>, f: Field)
    requires ObjectOrder(out)
    ensures ObjectOrder(Define(out, f))
    decreases |out|
  {
    if out != [] {
      if out[0].key == f.key {
        assert forall i | 0 <= i < |out| :: Define(out, f)[i].key == out[i].key;
      } else if IndexBefore(f.key, out[0].key) {
        DefineInFront(out, f);
      } else {
        DefineOrdered(out[1..], f);
        DefineKeeps(out[1..], f);
        var r := Define(out[1..], f);
        forall j | 0 <= j < |r| ensures r[j].key != out[0].key && !IndexBefore(r[j].key, out[0].key) {
          assert r[j] in r;
        }
        ConsKeepsOrder(out[0], r);
      }
    }
  }

  /** The value of an own property. */
  function Get(fs: seq<Field>, key: Str): Option<Value> {
    if fs == [] then None else if fs[0].key == key then Some(fs[0].value) else Get(fs[1..], key)
  }

  lemma {:induction false} DefineGets(out: seq<Field>, f: Field, key: Str)
    ensures Get(Define(out, f), key) == if key == f.key then Some(f.value) else Get(out, key)
    decreases |out|
  {
    if out != [] && out[0].key != f.key && !IndexBefore(f.key, out[0].key) {
      DefineGets(out[1..], f, key);
      assert Define(out, f)[1..] == Define(out[1..], f);
    }
  }

  /** The value of the last property written with this key. */
  function LastWritten(fs: seq<Field>, key: Str): Option<Value> {
    if fs == [] then None
    else
      var later := LastWritten(fs[1..], key);
      if later.None? && fs[0].key == key then Some(fs[0].value) else later
  }

  /** Defining a list of properties, duplicates included: an object's properties again, the last of each key. */
  lemma {:induction false} DefineAllOrdered(out: seq<Field>, fs: seq<Field>, key: Str)
    requires ObjectOrder(out)
    ensures ObjectOrder(DefineAll(out, fs))
    ensures Get(DefineAll(out, fs), key) == if LastWritten(fs, key).Some? then LastWritten(fs, key) else Get(out, key)
    decreases |fs|
  {
    if fs != [] {
      DefineOrdered(out, fs[0]);
      DefineGets(out, fs[0], key);
      DefineAllOrdered(Define(out, fs[0]), fs[1..], key);
    }
  }

  // ---------- numbers ----------

  function Power(base: nat, exponent: nat): nat {
    if exponent == 0 then 1 else base * Power(base, exponent - 1)
  }

  /** 16 to the 80. */
  const WIDE: nat :=
    0x1_0000_0000_0000_0000_0000_0000_0000_0000_0000_0000_0000_0000_0000_0000_0000_0000_0000_0000_0000_0000

  /** 2^1024 - 2^970: from here on a double is Infinity. */
  const OVERFLOW: int := 0xFFFF_FFFF_FFFF_FC00 * WIDE * WIDE * WIDE

  predicate Finite(n: int) { -OVERFLOW < n < OVERFLOW }

  // ---------- JSON values ----------

  /** A value JSON.stringify writes and JSON.parse reads back. */
  predicate IsJson(v: Value) {
    match v
    case Null => true
    case Bool(_) => true
    case Num(n) => Finite(n)
    case Text(_) => true
    case Arr(items) => forall i | 0 <= i < |items| :: IsJson(items[i])
    case Obj(fields) => ObjectOrder(fields) && forall i | 0 <= i < |fields| :: IsJson(fields[i].value)
    case _ => false
  }

  /** What a text can stand for: the same, but a number in it may be too large for a double. */
  predicate IsParsed(v: Value) {
    match v
    case Arr(items) => forall i | 0 <= i < |items| :: IsParsed(items[i])
    case Obj(fields) => ObjectOrder(fields) && forall i | 0 <= i < |fields| :: IsParsed(fields[i].value)
    case NonFinite => true
    case _ => IsJson(v)
  }

  // ---------- the printer ----------

  predicate IsHigh(c: CodeUnit) { 0xD800 <= c < 0xDC00 }

  predicate IsLow(c: CodeUnit) { 0xDC00 <= c < 0xE000 }

  function HexDigit(d: nat): CodeUnit
    requires d < 16
  {
    if d < 10 then 48 + d else 87 + d
  }

  function HexEscape(c: CodeUnit): Str {
    [92, 117, HexDigit(c / 4096), HexDigit(c / 256 % 16), HexDigit(c / 16 % 16), HexDigit(c % 16)]
  }

  function EscapeUnit(c: CodeUnit): Str {
    if c == 34 then [92, 34]
    else if c == 92 then [92, 92]
    else if c == 8 then [92, 98]
    else if c == 9 then [92, 116]
    else if c == 10 then [92, 110]
    else if c == 12 then [92, 102]
    else if c == 13 then [92, 114]
    else if c < 32 || IsHigh(c) || IsLow(c) then HexEscape(c)
    else [c]
  }

  /** A surrogate pair is printed as it is; a lone surrogate is escaped. */
  function Escape(s: Str): Str {
    if s == [] then []
    else if IsHigh(s[0]) && |s| > 1 && IsLow(s[1]) then [s[0], s[1]] + Escape(s[2..])
    else EscapeUnit(s[0]) + Escape(s[1..])
  }

  function Quote(s: Str): Str { [34] + Escape(s) + [34] }

  function PrintNat(n: nat): (t: Str)
    ensures t != []
  {
    if n < 10 then [48 + n] else PrintNat(n / 10) + [48 + n % 10]
  }

  function PrintInt(n: int): Str {
    if n < 0 then [45] + PrintNat(-n) else PrintNat(n)
  }

  /** JSON.stringify of a JSON value: no insignificant white space. */
  function Print(v: Value): Str {
    match v
    case Bool(b) => if b then Lit("true") else Lit("false")
    case Num(n) => PrintInt(n)
    case Text(s) => Quote(s)
    case Arr(items) => [91] + PrintItems(items) + [93]
    case Obj(fields) => [123] + PrintMembers(fields) + [125]
    case _ => Lit("null")
  }

  function PrintItems(items: seq<Value>): Str {
    if items == [] then []
    else Print(items[0]) + (if |items| == 1 then [] else [44] + PrintItems(items[1..]))
  }

  function PrintMembers(fs: seq<Field>): Str {
    if fs == [] then []
    else Quote(fs[0].key) + [58] + Print(fs[0].value) + (if |fs| == 1 then [] else [44] + PrintMembers(fs[1..]))
  }

  // ---------- the parser ----------

  predicate IsSpace(c: CodeUnit) { c == 32 || c == 9 || c == 10 || c == 13 }

  function SkipSpace(t: Str): (r: Str)
    ensures |r| <= |t|
    ensures r != [] ==> !IsSpace(r[0])
  {
    if t != [] && IsSpace(t[0]) then SkipSpace(t[1..]) else t
  }

  function HexValue(c: CodeUnit): Option<nat> {
    if IsDigit(c) then Some(c - 48)
    else if 97 <= c <= 102 then Some(c - 87)
    else if 65 <= c <= 70 then Some(c - 55)
    else None
  }

  /** The code unit an escape sequence names, and what follows it. `t` starts after the backslash. */
  function ParseEscape(t: Str): (r: Option<(CodeUnit, Str)>)
    ensures r.Some? ==> |r.value.1| < |t|
  {
    if t == [] then None
    else if t[0] == 34 || t[0] == 92 || t[0] == 47 then Some((t[0], t[1..]))
    else if t[0] == 98 then Some((8, t[1..]))
    else if t[0] == 102 then Some((12, t[1..]))
    else if t[0] == 110 then Some((10, t[1..]))
    else if t[0] == 114 then Some((13, t[1..]))
    else if t[0] == 116 then Some((9, t[1..]))
    else if t[0] == 117 && |t| >= 5 then
      match (HexValue(t[1]), HexValue(t[2]), HexValue(t[3]), HexValue(t[4]))
      case (Some(a), Some(b), Some(c), Some(d)) =>
        var u := a * 4096 + b * 256 + c * 16 + d;
        if u < 0x10000 then Some((u, t[5..])) else None
      case _ => None
    else None
  }

  /** The rest of a string literal, after its opening quote. */
  function ParseChars(t: Str): (r: Option<(Str, Str)>)
    ensures r.Some? ==> |r.value.1| < |t|
    decreases |t|
  {
    if t == [] || t[0] < 32 then None
    else if t[0] == 34 then Some(([], t[1..]))
    else
      var unit := if t[0] == 92 then ParseEscape(t[1..]) else Some((t[0], t[1..]));
      match unit
      case None => None
      case Some((c, rest)) =>
        match ParseChars(rest)
        case None => None
        case Some((s, end)) => Some(([c] + s, end))
  }

  function ParseDigits(t: Str, acc: nat): (r: (nat, Str))
    ensures |r.1| <= |t|
    decreases |t|
  {
    if t != [] && IsDigit(t[0]) then ParseDigits(t[1..], acc * 10 + (t[0] - 48)) else (acc, t)
  }

  predicate StartsWithDigit(t: Str) { t != [] && IsDigit(t[0]) }

  predicate StartsExponent(t: Str) { t != [] && (t[0] == 101 || t[0] == 69) }

  /** The exponent behind the digits, zero when there is none. */
  function ParseExponent(t: Str): (r: Option<(nat, Str)>)
    ensures r.Some? ==> |r.value.1| <= |t|
  {
    if !StartsExponent(t) then Some((0, t))
    else
      var digits := if |t| > 1 && t[1] == 43 then t[2..] else t[1..];
      if StartsWithDigit(digits) then Some(ParseDigits(digits, 0)) else None
  }

  /** The double nearest to an integer; below 2^53 that is the integer itself. */
  function Double(n: int): Value { if Finite(n) then Num(n) else NonFinite }

  /** A zero, or digits that do not start with one, behind an optional minus sign, and an optional exponent. */
  function ParseNumber(t: Str): (r: Option<(Value, Str)>)
    ensures r.Some? ==> |r.value.1| < |t|
  {
    var digits := if t != [] && t[0] == 45 then t[1..] else t;
    if !StartsWithDigit(digits) then None
    else
      var (n: int, rest) := if digits[0] == 48 then (0, digits[1..]) else ParseDigits(digits[1..], digits[0] - 48);
      match ParseExponent(rest)
      case None => None
      case Some((exponent, end)) =>
        Some((Double((if t[0] == 45 then 0 - n else n) * Power(10, exponent)), end))
  }

  /** One value at the head of `t`, and the text behind it. */
  function ParseValue(t: Str): (r: Option<(Value, Str)>)
    ensures r.Some? ==> |r.value.1| < |t|
    decreases |t|, 0
  {
    if t == [] then None
    else if t[0] == 34 then
      match ParseChars(t[1..])
      case None => None
      case Some((s, rest)) => Some((Text(s), rest))
    else if t[0] == 91 then
      var u := SkipSpace(t[1..]);
      if u != [] && u[0] == 93 then Some((Arr([]), u[1..]))
      else
        match ParseItems(u)
        case None => None
        case Some((items, rest)) => Some((Arr(items), rest))
    else if t[0] == 123 then
      var u := SkipSpace(t[1..]);
      if u != [] && u[0] == 125 then Some((Obj([]), u[1..]))
      else
        match ParseMembers(u)
        case None => None
        case Some((fs, rest)) => Some((Obj(DefineAll([], fs)), rest))
    else if Lit("null") <= t then Some((Null, t[4..]))
    else if Lit("true") <= t then Some((Bool(true), t[4..]))
    else if Lit("false") <= t then Some((Bool(false), t[5..]))
    else ParseNumber(t)
  }

  /** The items of a non-empty array, and what follows its closing bracket. */
  function ParseItems(t: Str): (r: Option<(seq<Value>, Str)>)
    ensures r.Some? ==> |r.value.1| < |t|
    decreases |t|, 1
  {
    match ParseValue(t)
    case None => None
    case Some((v, after)) =>
      var u := SkipSpace(after);
      if u == [] then None
      else if u[0] == 93 then Some(([v], u[1..]))
      else if u[0] != 44 then None
      else
        match ParseItems(SkipSpace(u[1..]))
        case None => None
        case Some((vs, rest)) => Some(([v] + vs, rest))
  }

  /** The members of a non-empty object as written, duplicates included. */
  function ParseMembers(t: Str): (r: Option<(seq<Field>, Str)>)
    ensures r.Some? ==> |r.value.1| < |t|
    decreases |t|, 1
  {
    if t == [] || t[0] != 34 then None
    else
      match ParseChars(t[1..])
      case None => None
      case Some((key, afterKey)) =>
        var colon := SkipSpace(afterKey);
        if colon == [] || colon[0] != 58 then None
        else
          match ParseValue(SkipSpace(colon[1..]))
          case None => None
          case Some((v, after)) =>
            var u := SkipSpace(after);
            if u == [] then None
            else if u[0] == 125 then Some(([Field(key, v)], u[1..]))
            else if u[0] != 44 then None
            else
              match ParseMembers(SkipSpace(u[1..]))
              case None => None
              case Some((fs, rest)) => Some(([Field(key, v)] + fs, rest))
  }

  /** JSON.parse; None is its SyntaxError. */
  function Parse(t: Str): Option<Value> {
    match ParseValue(SkipSpace(t))
    case None => None
    case Some((v, rest)) => if SkipSpace(rest) == [] then Some(v) else None
  }

  // ---------- the parser inverts the printer ----------

  lemma HexDigits(c: CodeUnit)
    ensures c == c / 4096 * 4096 + c / 256 % 16 * 256 + c / 16 % 16 * 16 + c % 16
  {
    assert c / 256 == c / 4096 * 16 + c / 256 % 16;
    assert c / 16 == c / 256 * 16 + c / 16 % 16;
  }

  lemma HexEscapeParses(c: CodeUnit, rest: Str)
    ensures ParseEscape(HexEscape(c)[1..] + rest) == Some((c, rest))
  {
    var t := HexEscape(c)[1..] + rest;
    HexDigits(c);
    assert t[0] == 117 && t[1] == HexDigit(c / 4096) && t[2] == HexDigit(c / 256 % 16);
    assert t[3] == HexDigit(c / 16 % 16) && t[4] == HexDigit(c % 16);
    assert t[5..] == rest;
  }

  lemma EscapeUnitParses(c: CodeUnit, rest: Str)
    ensures EscapeUnit(c) != [] && EscapeUnit(c)[0] >= 32 && EscapeUnit(c)[0] != 34
    ensures EscapeUnit(c)[0] == 92 ==> ParseEscape(EscapeUnit(c)[1..] + rest) == Some((c, rest))
    ensures EscapeUnit(c)[0] != 92 ==> EscapeUnit(c) == [c]
  {
    var e := EscapeUnit(c);
    if |e| > 2 {
      HexEscapeParses(c, rest);
    } else if |e| == 2 {
      var t := e[1..] + rest;
      assert t[1..] == rest;
    }
  }

  lemma ParseEscapedUnit(c: CodeUnit, tail: Str)
    requires ParseChars(tail).Some?
    ensures ParseChars(EscapeUnit(c) + tail) == Some(([c] + ParseChars(tail).value.0, ParseChars(tail).value.1))
  {
    EscapeUnitParses(c, tail);
    var t := EscapeUnit(c) + tail;
    assert t[0] == EscapeUnit(c)[0];
    assert t[1..] == EscapeUnit(c)[1..] + tail;
    if t[0] != 92 {
      assert t[1..] == tail;
    }
  }

  lemma ParseEscapedPair(s: Str, tail: Str)
    requires |s| > 1 && IsHigh(s[0]) && IsLow(s[1])
    requires ParseChars(tail).Some?
    ensures ParseChars([s[0]] + ([s[1]] + tail))
         == Some(([s[0]] + ([s[1]] + ParseChars(tail).value.0), ParseChars(tail).value.1))
  {
    var t := [s[0]] + ([s[1]] + tail);
    assert t[1..] == [s[1]] + tail;
    assert t[1..][1..] == tail;
  }

  /** A quoted string's text from behind its opening quote. */
  function Closed(s: Str, rest: Str): Str { Escape(s) + ([34] + rest) }

  lemma ClosedUnit(s: Str, rest: Str)
    requires s != [] && !(IsHigh(s[0]) && |s| > 1 && IsLow(s[1]))
    ensures Closed(s, rest) == EscapeUnit(s[0]) + Closed(s[1..], rest)
  {
    Assoc(EscapeUnit(s[0]), Escape(s[1..]), [34] + rest);
  }

  lemma ClosedPair(s: Str, rest: Str)
    requires |s| > 1 && IsHigh(s[0]) && IsLow(s[1])
    ensures Closed(s, rest) == [s[0]] + ([s[1]] + Closed(s[2..], rest))
  {
    Assoc([s[0], s[1]], Escape(s[2..]), [34] + rest);
  }

  lemma {:induction false} ParseEscaped(s: Str, rest: Str)
    ensures ParseChars(Closed(s, rest)) == Some((s, rest))
    decreases |s|
  {
    if s == [] {
      assert Closed(s, rest) == [34] + rest;
    } else if IsHigh(s[0]) && |s| > 1 && IsLow(s[1]) {
      ParseEscaped(s[2..], rest);
      ClosedPair(s, rest);
      ParseEscapedPair(s, Closed(s[2..], rest));
      assert s == [s[0]] + ([s[1]] + s[2..]);
    } else {
      ParseEscaped(s[1..], rest);
      ClosedUnit(s, rest);
      ParseEscapedUnit(s[0], Closed(s[1..], rest));
      assert s == [s[0]] + s[1..];
    }
  }

  lemma {:induction false} ParsePrintedNat(n: nat, rest: Str)
    ensures ParseDigits(PrintNat(n) + rest, 0) == ParseDigits(rest, n)
    decreases n
  {
    var d: CodeUnit := 48 + n % 10;
    if n < 10 {
      assert (PrintNat(n) + rest)[1..] == rest;
    } else {
      assert PrintNat(n) + rest == PrintNat(n / 10) + ([d] + rest);
      ParsePrintedNat(n / 10, [d] + rest);
      assert ([d] + rest)[1..] == rest;
    }
  }

  lemma {:induction false} PrintNatHead(n: nat)
    ensures IsDigit(PrintNat(n)[0])
    ensures PrintNat(n)[0] == 48 ==> n == 0
    decreases n
  {
    if n >= 10 {
      PrintNatHead(n / 10);
    }
  }

  /** What would make a number longer. */
  predicate NumberGoesOn(t: Str) { StartsWithDigit(t) || StartsExponent(t) }

  lemma DigitsParse(digits: Str, m: nat, rest: Str)
    requires StartsWithDigit(digits) && ParseDigits(digits, 0) == (m, rest) && !NumberGoesOn(rest) && Finite(m)
    requires digits[0] == 48 ==> m == 0 && digits[1..] == rest
    ensures ParseNumber(digits) == Some((Num(m), rest))
    ensures ParseNumber([45] + digits) == Some((Num(0 - m), rest))
  {
    assert ParseDigits(digits, 0) == ParseDigits(digits[1..], digits[0] - 48);
    assert ParseExponent(rest) == Some((0, rest)) && m * Power(10, 0) == m && (0 - m) * Power(10, 0) == 0 - m;
    assert ([45] + digits)[1..] == digits;
  }

  lemma PrintedDigits(m: nat, rest: Str)
    requires !StartsWithDigit(rest)
    ensures var digits := PrintNat(m) + rest;
      && StartsWithDigit(digits) && ParseDigits(digits, 0) == (m, rest)
      && (digits[0] == 48 ==> m == 0 && digits[1..] == rest)
  {
    PrintNatHead(m);
    ParsePrintedNat(m, rest);
    assert (PrintNat(0) + rest)[1..] == rest;
  }

  lemma ParsePrintedNumber(n: int, rest: Str)
    requires Finite(n) && !NumberGoesOn(rest)
    ensures ParseNumber(PrintInt(n) + rest) == Some((Num(n), rest))
  {
    var m: nat := if n < 0 then -n else n;
    PrintedDigits(m, rest);
    DigitsParse(PrintNat(m) + rest, m, rest);
    Assoc([45], PrintNat(m), rest);
  }

  lemma Literals()
    ensures Lit("null") == [110, 117, 108, 108]
    ensures Lit("true") == [116, 114, 117, 101]
    ensures Lit("false") == [102, 97, 108, 115, 101]
  {
  }

  /** No printed value starts with white space or with punctuation that closes or separates. */
  lemma PrintHead(v: Value)
    ensures Print(v) != []
    ensures !IsSpace(Print(v)[0]) && Print(v)[0] !in [44, 93, 125]
  {
    Literals();
    if v.Num? {
      PrintNatHead(if v.n < 0 then -v.n else v.n);
    }
  }

  function ItemsText(items: seq<Value>, rest: Str): Str { PrintItems(items) + ([93] + rest) }

  lemma ItemsTextStep(items: seq<Value>, rest: Str)
    requires items != []
    ensures ItemsText(items, rest)
         == Print(items[0]) + (if |items| == 1 then [93] + rest else [44] + ItemsText(items[1..], rest))
  {
    var tail := PrintItems(items[1..]);
    if |items| == 1 {
      assert PrintItems(items) == Print(items[0]);
    } else {
      Assoc(Print(items[0]), [44] + tail, [93] + rest);
      Assoc([44], tail, [93] + rest);
    }
  }

  function MembersText(fs: seq<Field>, rest: Str): Str { PrintMembers(fs) + ([125] + rest) }

  function MemberTail(fs: seq<Field>, rest: Str): Str
    requires fs != []
  {
    if |fs| == 1 then [125] + rest else [44] + MembersText(fs[1..], rest)
  }

  lemma MembersTextStep(fs: seq<Field>, rest: Str)
    requires fs != []
    ensures MembersText(fs, rest)
         == [34] + Closed(fs[0].key, [58] + (Print(fs[0].value) + MemberTail(fs, rest)))
  {
    var q, p := Quote(fs[0].key), Print(fs[0].value);
    var tail := PrintMembers(fs[1..]);
    var sep := if |fs| == 1 then [] else [44] + tail;
    assert sep + ([125] + rest) == MemberTail(fs, rest);
    assert PrintMembers(fs) == q + [58] + p + sep;
    Assoc(q + [58] + p, sep, [125] + rest);
    Assoc(q + [58], p, MemberTail(fs, rest));
    Assoc(q, [58], p + MemberTail(fs, rest));
    QuoteText(fs[0].key, [58] + (p + MemberTail(fs, rest)));
  }

  lemma QuoteText(s: Str, rest: Str)
    ensures Quote(s) + rest == [34] + Closed(s, rest)
  {
    Assoc([34] + Escape(s), [34], rest);
    Assoc([34], Escape(s), [34] + rest);
  }

  /** Each printed value is read back exactly, whatever text follows it. */
  lemma {:induction false} ParsePrinted(v: Value, rest: Str)
    requires IsJson(v) && !NumberGoesOn(rest)
    ensures ParseValue(Print(v) + rest) == Some((v, rest))
    decreases v, 1
  {
    var t := Print(v) + rest;
    Literals();
    match v
    case Null => assert t[..4] == Lit("null") && t[4..] == rest;
    case Bool(b) =>
      if b {
        assert t[..4] == Lit("true") && t[4..] == rest;
      } else {
        assert t[..5] == Lit("false") && t[5..] == rest;
      }
    case Num(n) =>
      PrintNatHead(if n < 0 then -n else n);
      ParsePrintedNumber(n, rest);
    case Text(s) =>
      ParseEscaped(s, rest);
      QuoteText(s, rest);
      assert t[1..] == Closed(s, rest);
    case Arr(items) => ParsePrintedArray(items, rest);
    case Obj(fields) => ParsePrintedObject(fields, rest);
  }

  lemma {:induction false} ParsePrintedArray(items: seq<Value>, rest: Str)
    requires forall i | 0 <= i < |items| :: IsJson(items[i])
    ensures ParseValue(Print(Arr(items)) + rest) == Some((Arr(items), rest))
    decreases items, 3
  {
    var t := Print(Arr(items)) + rest;
    var inner := ItemsText(items, rest);
    Assoc([91] + PrintItems(items), [93], rest);
    Assoc([91], PrintItems(items), [93] + rest);
    assert t == [91] + inner;
    assert t[1..] == inner;
    if items == [] {
      assert inner == [93] + rest;
      assert inner[1..] == rest;
    } else {
      PrintHead(items[0]);
      ItemsTextStep(items, rest);
      assert inner[0] == Print(items[0])[0];
      ParsePrintedItems(items, rest);
    }
  }

  lemma LastItemParses(printed: Str, v: Value, rest: Str)
    requires ParseValue(printed) == Some((v, [93] + rest))
    ensures ParseItems(printed) == Some(([v], rest))
  {
    assert ([93] + rest)[1..] == rest;
  }

  lemma ItemParses(printed: Str, v: Value, inner: Str, vs: seq<Value>, rest: Str)
    requires ParseValue(printed) == Some((v, [44] + inner))
    requires SkipSpace(inner) == inner && ParseItems(inner) == Some((vs, rest))
    ensures ParseItems(printed) == Some(([v] + vs, rest))
  {
    assert ([44] + inner)[1..] == inner;
  }

  lemma ItemsStart(items: seq<Value>, rest: Str)
    requires items != []
    ensures SkipSpace(ItemsText(items, rest)) == ItemsText(items, rest)
  {
    ItemsTextStep(items, rest);
    ValueStarts(items[0], if |items| == 1 then [93] + rest else [44] + ItemsText(items[1..], rest));
  }

  lemma {:induction false} ParsePrintedItems(items: seq<Value>, rest: Str)
    requires items != [] && forall i | 0 <= i < |items| :: IsJson(items[i])
    ensures ParseItems(ItemsText(items, rest)) == Some((items, rest))
    decreases items, 2
  {
    var v := items[0];
    ItemsTextStep(items, rest);
    if |items| == 1 {
      ParsePrinted(v, [93] + rest);
      LastItemParses(Print(v) + ([93] + rest), v, rest);
      assert items == [v];
    } else {
      var inner := ItemsText(items[1..], rest);
      ParsePrinted(v, [44] + inner);
      ItemsStart(items[1..], rest);
      ParsePrintedItems(items[1..], rest);
      ItemParses(Print(v) + ([44] + inner), v, inner, items[1..], rest);
      assert items == [v] + items[1..];
    }
  }

  lemma EmptyObjectParses(rest: Str)
    ensures ParseValue([123] + MembersText([], rest)) == Some((Obj([]), rest))
  {
    var inner := [125] + rest;
    assert MembersText([], rest) == inner;
    var t := [123] + inner;
    assert t[0] == 123 && t[1..] == inner;
    assert inner[0] == 125 && inner[1..] == rest && SkipSpace(inner) == inner;
  }

  lemma ObjectParses(inner: Str, fs: seq<Field>, rest: Str)
    requires inner != [] && inner[0] == 34 && ParseMembers(inner) == Some((fs, rest))
    ensures ParseValue([123] + inner) == Some((Obj(DefineAll([], fs)), rest))
  {
    assert ([123] + inner)[1..] == inner;
  }

  lemma {:induction false} ParsePrintedObject(fs: seq<Field>, rest: Str)
    requires ObjectOrder(fs) && forall i | 0 <= i < |fs| :: IsJson(fs[i].value)
    ensures ParseValue(Print(Obj(fs)) + rest) == Some((Obj(fs), rest))
    decreases fs, 3
  {
    ObjectText(fs, rest);
    if fs == [] {
      EmptyObjectParses(rest);
    } else {
      MembersTextStep(fs, rest);
      ParsePrintedMembers(fs, rest);
      ObjectParses(MembersText(fs, rest), fs, rest);
      Rebuilt(fs);
    }
  }

  lemma ObjectText(fs: seq<Field>, rest: Str)
    ensures Print(Obj(fs)) + rest == [123] + MembersText(fs, rest)
  {
    Assoc([123] + PrintMembers(fs), [125], rest);
    Assoc([123], PrintMembers(fs), [125] + rest);
  }

  /** A member's text up to its value. */
  predicate MemberAt(closed: Str, key: Str, printed: Str, v: Value, after: Str) {
    && ParseChars(closed) == Some((key, [58] + printed))
    && SkipSpace(printed) == printed && ParseValue(printed) == Some((v, after))
  }

  lemma LastMemberParses(closed: Str, key: Str, printed: Str, v: Value, rest: Str)
    requires MemberAt(closed, key, printed, v, [125] + rest)
    ensures ParseMembers([34] + closed) == Some(([Field(key, v)], rest))
  {
    assert ([34] + closed)[1..] == closed && ([58] + printed)[1..] == printed && ([125] + rest)[1..] == rest;
  }

  lemma MemberParses(closed: Str, key: Str, printed: Str, v: Value, inner: Str, fs: seq<Field>, rest: Str)
    requires MemberAt(closed, key, printed, v, [44] + inner)
    requires SkipSpace(inner) == inner && ParseMembers(inner) == Some((fs, rest))
    ensures ParseMembers([34] + closed) == Some(([Field(key, v)] + fs, rest))
  {
    assert ([34] + closed)[1..] == closed && ([58] + printed)[1..] == printed && ([44] + inner)[1..] == inner;
  }

  lemma ValueStarts(v: Value, after: Str)
    ensures SkipSpace(Print(v) + after) == Print(v) + after
  {
    PrintHead(v);
    assert (Print(v) + after)[0] == Print(v)[0];
  }

  lemma FirstMember(f: Field, after: Str)
    requires IsJson(f.value) && ParseValue(Print(f.value) + after) == Some((f.value, after))
    ensures MemberAt(Closed(f.key, [58] + (Print(f.value) + after)), f.key, Print(f.value) + after, f.value, after)
  {
    ValueStarts(f.value, after);
    ParseEscaped(f.key, [58] + (Print(f.value) + after));
  }

  lemma MembersStart(fs: seq<Field>, rest: Str)
    requires fs != []
    ensures SkipSpace(MembersText(fs, rest)) == MembersText(fs, rest)
  {
    MembersTextStep(fs, rest);
  }

  lemma OneMemberParses(fs: seq<Field>, rest: Str)
    requires |fs| == 1 && IsJson(fs[0].value)
    requires ParseValue(Print(fs[0].value) + ([125] + rest)) == Some((fs[0].value, [125] + rest))
    ensures ParseMembers(MembersText(fs, rest)) == Some((fs, rest))
  {
    var printed := Print(fs[0].value) + ([125] + rest);
    MembersTextStep(fs, rest);
    FirstMember(fs[0], [125] + rest);
    LastMemberParses(Closed(fs[0].key, [58] + printed), fs[0].key, printed, fs[0].value, rest);
    assert fs == [fs[0]];
  }

  lemma MoreMembersText(fs: seq<Field>, inner: Str, printed: Str, rest: Str)
    requires |fs| > 1 && inner == MembersText(fs[1..], rest) && printed == Print(fs[0].value) + ([44] + inner)
    ensures MembersText(fs, rest) == [34] + Closed(fs[0].key, [58] + printed)
  {
    MembersTextStep(fs, rest);
  }

  lemma MoreMembersParse(fs: seq<Field>, inner: Str, rest: Str)
    requires |fs| > 1 && inner == MembersText(fs[1..], rest) && IsJson(fs[0].value)
    requires ParseValue(Print(fs[0].value) + ([44] + inner)) == Some((fs[0].value, [44] + inner))
    requires ParseMembers(inner) == Some((fs[1..], rest))
    ensures ParseMembers(MembersText(fs, rest)) == Some((fs, rest))
  {
    var printed := Print(fs[0].value) + ([44] + inner);
    var closed := Closed(fs[0].key, [58] + printed);
    MoreMembersText(fs, inner, printed, rest);
    MembersStart(fs[1..], rest);
    FirstMember(fs[0], [44] + inner);
    MemberParsesTo(closed, fs[0], printed, inner, fs, rest);
  }

  lemma MemberParsesTo(closed: Str, f: Field, printed: Str, inner: Str, fs: seq<Field>, rest: Str)
    requires fs != [] && f == fs[0] && MemberAt(closed, f.key, printed, f.value, [44] + inner)
    requires SkipSpace(inner) == inner && ParseMembers(inner) == Some((fs[1..], rest))
    ensures ParseMembers([34] + closed) == Some((fs, rest))
  {
    MemberParses(closed, f.key, printed, f.value, inner, fs[1..], rest);
    assert fs == [Field(f.key, f.value)] + fs[1..];
  }

  lemma {:induction false} ParsePrintedMembers(fs: seq<Field>, rest: Str)
    requires fs != [] && forall i | 0 <= i < |fs| :: IsJson(fs[i].value)
    ensures ParseMembers(MembersText(fs, rest)) == Some((fs, rest))
    decreases fs, 2
  {
    if |fs| == 1 {
      ParsePrinted(fs[0].value, [125] + rest);
      OneMemberParses(fs, rest);
    } else {
      var inner := MembersText(fs[1..], rest);
      ParsePrinted(fs[0].value, [44] + inner);
      ParsePrintedMembers(fs[1..], rest);
      MoreMembersParse(fs, inner, rest);
    }
  }

  /** JSON.parse undoes JSON.stringify. */
  lemma ParsePrint(v: Value)
    requires IsJson(v)
    ensures Parse(Print(v)) == Some(v)
  {
    PrintHead(v);
    ParsePrinted(v, []);
    assert Print(v) + [] == Print(v);
  }

  /** So a printed text determines the value: the printer is uniquely decodable. */
  lemma PrintInjective(v: Value, w: Value)
    requires IsJson(v) && IsJson(w) && Print(v) == Print(w)
    ensures v == w
  {
    ParsePrint(v);
    ParsePrint(w);
  }

  // ---------- what the parser makes ----------

  lemma {:induction false} DefineAllFrom(out: seq<Field>, fs: seq<Field>)
    ensures forall g <- DefineAll(out, fs) :: g in out || g in fs
    decreases |fs|
  {
    if fs != [] {
      DefineKeeps(out, fs[0]);
      DefineAllFrom(Define(out, fs[0]), fs[1..]);
    }
  }

  lemma ObjectIsParsed(fs: seq<Field>)
    requires forall f <- fs :: IsParsed(f.value)
    ensures IsParsed(Obj(DefineAll([], fs)))
  {
    DefineAllOrdered([], fs, []);
    DefineAllFrom([], fs);
    var all := DefineAll([], fs);
    forall i | 0 <= i < |all| ensures IsParsed(all[i].value) {
      assert all[i] in all;
    }
  }

  lemma {:induction false} ParseValueIsParsed(t: Str)
    ensures ParseValue(t).Some? ==> IsParsed(ParseValue(t).value.0)
    decreases |t|, 0
  {
    if t != [] && t[0] == 91 {
      ParseItemsParsed(SkipSpace(t[1..]));
    } else if t != [] && t[0] == 123 {
      ParseMembersParsed(SkipSpace(t[1..]));
      if ParseMembers(SkipSpace(t[1..])).Some? {
        ObjectIsParsed(ParseMembers(SkipSpace(t[1..])).value.0);
      }
    }
  }

  lemma {:induction false} ParseItemsParsed(t: Str)
    ensures ParseItems(t).Some? ==> forall v <- ParseItems(t).value.0 :: IsParsed(v)
    decreases |t|, 1
  {
    ParseValueIsParsed(t);
    if ParseValue(t).Some? {
      var u := SkipSpace(ParseValue(t).value.1);
      if u != [] && u[0] == 44 {
        ParseItemsParsed(SkipSpace(u[1..]));
      }
    }
  }

  lemma {:induction false} ParseMembersParsed(t: Str)
    ensures ParseMembers(t).Some? ==> forall f <- ParseMembers(t).value.0 :: IsParsed(f.value)
    decreases |t|, 1
  {
    if t != [] && t[0] == 34 && ParseChars(t[1..]).Some? {
      var colon := SkipSpace(ParseChars(t[1..]).value.1);
      if colon != [] && colon[0] == 58 {
        ParseValueIsParsed(SkipSpace(colon[1..]));
        if ParseValue(SkipSpace(colon[1..])).Some? {
          var u := SkipSpace(ParseValue(SkipSpace(colon[1..])).value.1);
          if u != [] && u[0] == 44 {
            ParseMembersParsed(SkipSpace(u[1..]));
          }
        }
      }
    }
  }

  /** Whatever the text, duplicate keys and numbers too large included. */
  lemma ParseIsParsed(t: Str)
    ensures Parse(t).Some? ==> IsParsed(Parse(t).value)
  {
    ParseValueIsParsed(SkipSpace(t));
  }

  lemma AtLeast(a: nat, b: nat, c: nat, d: nat)
    requires a >= c && b >= d
    ensures a * b >= c * d >= 0
  {
  }

  lemma Regroup(a: nat, b: nat, c: nat)
    ensures a * (b * c) == (a * b) * c
  {
  }

  lemma {:induction false} PowerSum(base: nat, a: nat, b: nat)
    ensures Power(base, a + b) == Power(base, a) * Power(base, b)
    decreases a
  {
    if a > 0 {
      PowerSum(base, a - 1, b);
      Regroup(base, Power(base, a - 1), Power(base, b));
    }
  }

  lemma {:induction false} PowerPositive(base: nat, n: nat)
    requires base >= 1
    ensures Power(base, n) >= 1
    decreases n
  {
    if n > 0 {
      PowerPositive(base, n - 1);
      AtLeast(base, Power(base, n - 1), 1, 1);
    }
  }

  lemma Twenty()
    ensures Power(10, 17) >= 0x100_0000_0000_0000
    ensures Power(10, 20) >= 0xFFFF_FFFF_FFFF_FC00 && Power(10, 20) >= 0x4_0000_0000_0000_0000
  {
    assert Power(10, 5) == 100_000;
    assert Power(10, 10) == 10_000_000_000;
    assert Power(10, 15) == 1_000_000_000_000_000;
    assert Power(10, 17) == 100_000_000_000_000_000;
    assert Power(10, 20) == 100_000_000_000_000_000_000;
  }

  lemma Wide()
    ensures Power(10, 97) >= WIDE
  {
    Twenty();
    PowerSum(10, 20, 20);
    AtLeast(Power(10, 20), Power(10, 20), 0x4_0000_0000_0000_0000, 0x4_0000_0000_0000_0000);
    PowerSum(10, 40, 40);
    AtLeast(Power(10, 40), Power(10, 40), 0x10_0000_0000_0000_0000_0000_0000_0000_0000,
            0x10_0000_0000_0000_0000_0000_0000_0000_0000);
    PowerSum(10, 80, 17);
    AtLeast(Power(10, 80), Power(10, 17),
            0x100_0000_0000_0000_0000_0000_0000_0000_0000_0000_0000_0000_0000_0000_0000_0000_0000,
            0x100_0000_0000_0000);
  }

  /** 10^311 is too large. */
  lemma OverflowAt()
    ensures Power(10, 311) >= OVERFLOW
  {
    Wide();
    Twenty();
    PowerSum(10, 20, 97);
    AtLeast(Power(10, 20), Power(10, 97), 0xFFFF_FFFF_FFFF_FC00, WIDE);
    PowerSum(10, 117, 97);
    AtLeast(Power(10, 117), Power(10, 97), 0xFFFF_FFFF_FFFF_FC00 * WIDE, WIDE);
    PowerSum(10, 214, 97);
    AtLeast(Power(10, 214), Power(10, 97), 0xFFFF_FFFF_FFFF_FC00 * WIDE * WIDE, WIDE);
  }

  /** Any positive integer with that many zeros behind it is Infinity. */
  lemma TooLarge(n: nat, exponent: nat)
    requires n >= 1 && exponent >= 311
    ensures Double(n * Power(10, exponent)) == NonFinite
  {
    OverflowAt();
    PowerSum(10, 311, exponent - 311);
    PowerPositive(10, exponent - 311);
    AtLeast(Power(10, 311), Power(10, exponent - 311), Power(10, 311), 1);
    AtLeast(n, Power(10, exponent), 1, Power(10, exponent));
  }

  lemma ThreeDigits(a: CodeUnit, b: CodeUnit, c: CodeUnit)
    requires IsDigit(a) && IsDigit(b) && IsDigit(c)
    ensures ParseDigits([a, b, c], 0) == (100 * (a - 48) + 10 * (b - 48) + (c - 48), [])
  {
    var t := [a, b, c];
    assert t[1..] == [b, c] && [b, c][1..] == [c] && [c][1..] == [];
    assert ParseDigits([], 100 * (a - 48) + 10 * (b - 48) + (c - 48)).1 == [];
    assert ParseDigits([c], 10 * (a - 48) + (b - 48)) == ParseDigits([], 100 * (a - 48) + 10 * (b - 48) + (c - 48));
    assert ParseDigits([b, c], a - 48) == ParseDigits([c], 10 * (a - 48) + (b - 48));
  }

  lemma NineNineNine(t: Str)
    requires t == [101, 57, 57, 57]
    ensures ParseExponent(t) == Some((999, []))
  {
    assert t[1..] == [57, 57, 57];
    ThreeDigits(57, 57, 57);
  }

  lemma LargeParses(t: Str, n: nat, rest: Str, exponent: nat, end: Str)
    requires t != [] && 49 <= t[0] <= 57 && ParseDigits(t[1..], t[0] - 48) == (n, rest) && n >= 1
    requires ParseExponent(rest) == Some((exponent, end)) && exponent >= 311
    ensures ParseNumber(t) == Some((NonFinite, end))
  {
    TooLarge(n, exponent);
  }

  /** `1e999` is Infinity. */
  lemma InfinityParses()
    ensures Parse(Lit("1e999")) == Some(NonFinite)
  {
    var t: Str := [49, 101, 57, 57, 57];
    assert Lit("1e999") == t;
    assert t[1..] == [101, 57, 57, 57];
    NineNineNine(t[1..]);
    LargeParses(t, 1, t[1..], 999, []);
    Literals();
    assert ParseValue(t) == ParseNumber(t);
  }

  // ---------- the text survives UTF-8 ----------

  /** Every surrogate is half of a pair, so encoding to UTF-8 replaces nothing. */
  predicate WellFormed(t: Str) {
    t == []
    || (IsHigh(t[0]) && |t| > 1 && IsLow(t[1]) && WellFormed(t[2..]))
    || (!IsHigh(t[0]) && !IsLow(t[0]) && WellFormed(t[1..]))
  }

  lemma {:induction false} WellFormedJoin(a: Str, b: Str)
    requires WellFormed(a) && WellFormed(b)
    ensures WellFormed(a + b)
    decreases |a|
  {
    if a == [] {
      assert a + b == b;
    } else if IsHigh(a[0]) {
      WellFormedJoin(a[2..], b);
      assert (a + b)[2..] == a[2..] + b;
    } else {
      WellFormedJoin(a[1..], b);
      assert (a + b)[1..] == a[1..] + b;
    }
  }

  lemma {:induction false} AsciiWellFormed(t: Str)
    requires forall i | 0 <= i < |t| :: t[i] < 128
    ensures WellFormed(t)
  {
    if t != [] {
      AsciiWellFormed(t[1..]);
    }
  }

  lemma {:induction false} EscapeWellFormed(s: Str)
    ensures WellFormed(Escape(s))
    decreases |s|
  {
    if s == [] {
    } else if IsHigh(s[0]) && |s| > 1 && IsLow(s[1]) {
      EscapeWellFormed(s[2..]);
      assert Escape(s)[2..] == Escape(s[2..]);
    } else {
      EscapeWellFormed(s[1..]);
      if |EscapeUnit(s[0])| > 1 {
        AsciiWellFormed(EscapeUnit(s[0]));
      } else {
        assert EscapeUnit(s[0])[1..] == [];
      }
      WellFormedJoin(EscapeUnit(s[0]), Escape(s[1..]));
    }
  }

  lemma QuoteWellFormed(s: Str)
    ensures WellFormed(Quote(s))
  {
    EscapeWellFormed(s);
    AsciiWellFormed([34]);
    WellFormedJoin([34], Escape(s));
    WellFormedJoin([34] + Escape(s), [34]);
  }

  lemma {:induction false} PrintNatDigits(n: nat)
    ensures forall i | 0 <= i < |PrintNat(n)| :: IsDigit(PrintNat(n)[i])
  {
    if n >= 10 {
      PrintNatDigits(n / 10);
    }
  }

  /** Whatever lone surrogates a value holds, its JSON text holds none. */
  lemma {:induction false} PrintWellFormed(v: Value)
    ensures WellFormed(Print(v))
    decreases v, 1
  {
    match v
    case Num(n) =>
      PrintNatDigits(if n < 0 then -n else n);
      AsciiWellFormed(PrintInt(n));
    case Text(s) => QuoteWellFormed(s);
    case Arr(items) =>
      PrintItemsWellFormed(items);
      AsciiWellFormed([91]);
      AsciiWellFormed([93]);
      WellFormedJoin([91], PrintItems(items));
      WellFormedJoin([91] + PrintItems(items), [93]);
    case Obj(fs) =>
      PrintMembersWellFormed(fs);
      AsciiWellFormed([123]);
      AsciiWellFormed([125]);
      WellFormedJoin([123], PrintMembers(fs));
      WellFormedJoin([123] + PrintMembers(fs), [125]);
    case _ =>
      Literals();
      AsciiWellFormed(Print(v));
  }

  lemma {:induction false} PrintItemsWellFormed(items: seq<Value>)
    ensures WellFormed(PrintItems(items))
    decreases items, 0
  {
    if items != [] {
      PrintWellFormed(items[0]);
      PrintItemsWellFormed(items[1..]);
      AsciiWellFormed([44]);
      WellFormedJoin([44], PrintItems(items[1..]));
      WellFormedJoin(Print(items[0]), if |items| == 1 then [] else [44] + PrintItems(items[1..]));
    }
  }

  lemma {:induction false} PrintMembersWellFormed(fs: seq<Field>)
    ensures WellFormed(PrintMembers(fs))
    decreases fs, 0
  {
    if fs != [] {
      QuoteWellFormed(fs[0].key);
      PrintWellFormed(fs[0].value);
      PrintMembersWellFormed(fs[1..]);
      AsciiWellFormed([58]);
      AsciiWellFormed([44]);
      WellFormedJoin([44], PrintMembers(fs[1..]));
      WellFormedJoin(Quote(fs[0].key), [58]);
      WellFormedJoin(Quote(fs[0].key) + [58], Print(fs[0].value));
      WellFormedJoin(Quote(fs[0].key) + [58] + Print(fs[0].value),
                     if |fs| == 1 then [] else [44] + PrintMembers(fs[1..]));
    }
  }
}
