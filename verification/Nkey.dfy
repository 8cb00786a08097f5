/** The nkey text form: base32 both ways over a wrapping accumulator, and the seed around it. */
module Nkey {
  import opened Prelude
  import opened Register
  import opened LongDivision
  import opened Word
  import opened Crc

  // ---------- bit strings as numbers ----------

  function Digit(bit: bool): nat { if bit then 1 else 0 }

  /** The number a string of bits spells, most significant first. */
  function Value(bits: seq<bool>): (v: nat)
    ensures v < Pow2(|bits|)
  {
    if bits == [] then 0 else 2 * Value(bits[..|bits| - 1]) + Digit(bits[|bits| - 1])
  }

  function BitsOf(v: nat, n: nat): (bits: seq<bool>)
    ensures |bits| == n
  {
    if n == 0 then [] else BitsOf(v / 2, n - 1) + [v % 2 == 1]
  }

  lemma {:induction false} ValueJoin(a: seq<bool>, b: seq<bool>)
    ensures Value(a + b) == Scale(Value(a), |b|) + Value(b)
    decreases |b|
  {
    if b == [] {
      assert a + b == a;
    } else {
      assert (a + b)[..|a + b| - 1] == a + b[..|b| - 1];
      ValueJoin(a, b[..|b| - 1]);
    }
  }

  lemma {:induction false} ValueOfPad(n: nat)
    ensures Value(Pad(n)) == 0
    decreases n
  {
    if n > 0 {
      assert Pad(n)[..n - 1] == Pad(n - 1);
      ValueOfPad(n - 1);
    }
  }

  lemma {:induction false} BitsOfValue(bits: seq<bool>)
    ensures BitsOf(Value(bits), |bits|) == bits
    decreases |bits|
  {
    if bits != [] {
      BitsOfValue(bits[..|bits| - 1]);
    }
  }

  lemma {:induction false} ValueOfBits(v: nat, n: nat)
    requires v < Pow2(n)
    ensures Value(BitsOf(v, n)) == v
    decreases n
  {
    if n > 0 {
      ValueOfBits(v / 2, n - 1);
      assert BitsOf(v, n)[..n - 1] == BitsOf(v / 2, n - 1);
    }
  }

  // ---------- a byte's bits ----------

  function ByteOf(bits: seq<bool>): bv8
    requires |bits| == 8
  {
    assert Pow2(8) == 256;
    Value(bits) as bv8
  }

  lemma ByteWeighs(b: bv8)
    ensures b as int == (if b & 128 != 0 then 128 else 0) + (if b & 64 != 0 then 64 else 0)
      + (if b & 32 != 0 then 32 else 0)
      + (if b & 16 != 0 then 16 else 0) + (if b & 8 != 0 then 8 else 0) + (if b & 4 != 0 then 4 else 0)
      + (if b & 2 != 0 then 2 else 0) + (if b & 1 != 0 then 1 else 0)
  {
  }

  lemma ValueOfFour(p: bool, q: bool, s: bool, t: bool)
    ensures Value([p, q, s, t]) == 8 * Digit(p) + 4 * Digit(q) + 2 * Digit(s) + Digit(t)
  {
    var bits := [p, q, s, t];
    assert bits[..3] == [p, q, s] && [p, q, s][..2] == [p, q] && [p, q][..1] == [p];
    assert Value([p]) == Digit(p);
    assert Value([p, q]) == 2 * Value([p]) + Digit(q);
    assert Value([p, q, s]) == 2 * Value([p, q]) + Digit(s);
  }

  lemma ScaleFour(x: nat)
    ensures Scale(x, 4) == 16 * x
  {
    assert Scale(x, 1) == 2 * Scale(x, 0);
    assert Scale(x, 2) == 2 * Scale(x, 1);
    assert Scale(x, 3) == 2 * Scale(x, 2);
  }

  lemma ValueOfEight(p: bool, q: bool, s: bool, t: bool, u: bool, v: bool, w: bool, x: bool)
    ensures Value([p, q, s, t, u, v, w, x])
         == 128 * Digit(p) + 64 * Digit(q) + 32 * Digit(s) + 16 * Digit(t)
            + 8 * Digit(u) + 4 * Digit(v) + 2 * Digit(w) + Digit(x)
  {
    assert [p, q, s, t, u, v, w, x] == [p, q, s, t] + [u, v, w, x];
    ValueOfFour(p, q, s, t);
    ValueOfFour(u, v, w, x);
    ValueJoin([p, q, s, t], [u, v, w, x]);
    ScaleFour(Value([p, q, s, t]));
  }

  lemma ByteValue(b: bv8)
    ensures Value(ByteBits(b)) == b as int
  {
    ByteWeighs(b);
    ValueOfEight(b & 128 != 0, b & 64 != 0, b & 32 != 0, b & 16 != 0, b & 8 != 0, b & 4 != 0, b & 2 != 0, b & 1 != 0);
  }

  lemma ByteBack(b: bv8)
    ensures (b as int) as bv8 == b
  {
  }

  lemma ByteRoundTrip(b: bv8)
    ensures ByteOf(ByteBits(b)) == b
  {
    ByteValue(b);
    ByteBack(b);
  }

  // ---------- the alphabet ----------

  const BASE32: string := "ABCDEFGHIJKLMNOPQRSTUVWXYZ234567"

  /** The first place of a character, or -1: the source's `indexOf`. */
  function IndexOf(s: string, c: char): (i: int)
    ensures -1 <= i < |s|
    ensures i >= 0 ==> s[i] == c
    ensures i < 0 ==> c !in s
  {
    if s == [] then -1 else if s[0] == c then 0
    else var i := IndexOf(s[1..], c); if i < 0 then -1 else i + 1
  }

  lemma AlphabetDistinct(i: nat, j: nat)
    requires i < 32 && j < 32 && BASE32[i] == BASE32[j]
    ensures i == j
  {
    AlphabetAt(i);
    AlphabetAt(j);
  }

  lemma AlphabetAt(i: nat)
    requires i < 32
    ensures BASE32[i] as int == if i < 26 then 65 + i else 24 + i
  {
    assert BASE32 == "ABCDEFGH" + "IJKLMNOP" + "QRSTUVWX" + "YZ234567";
    if i < 8 {
      assert BASE32[i] == "ABCDEFGH"[i];
    } else if i < 16 {
      assert BASE32[i] == "IJKLMNOP"[i - 8];
    } else if i < 24 {
      assert BASE32[i] == "QRSTUVWX"[i - 16];
    } else {
      assert BASE32[i] == "YZ234567"[i - 24];
    }
  }

  lemma IndexOfLetter(i: nat)
    requires i < 32
    ensures IndexOf(BASE32, BASE32[i]) == i
  {
    AlphabetDistinct(i, IndexOf(BASE32, BASE32[i]));
  }

  // ---------- the text form, as regrouping ----------

  function Letter(bits: seq<bool>): char
    requires |bits| == 5
  {
    assert Pow2(5) == 32;
    BASE32[Value(bits)]
  }

  /** Base32: the bits in fives, the last group filled up with zeros (RFC 4648 section 6, unpadded). */
  function Letters(bits: seq<bool>): string
    decreases |bits|
  {
    if bits == [] then []
    else if |bits| < 5 then [Letter(bits + Pad(5 - |bits|))]
    else [Letter(bits[..5])] + Letters(bits[5..])
  }

  function LetterBits(c: char): seq<bool>
    requires c in BASE32
  {
    BitsOf(IndexOf(BASE32, c), 5)
  }

  function TextBits(text: string): seq<bool>
    requires forall c <- text :: c in BASE32
  {
    if text == [] then [] else LetterBits(text[0]) + TextBits(text[1..])
  }

  /** The whole bytes of a bit string; fewer than eight bits left over are dropped. */
  function Octets(bits: seq<bool>): seq<bv8>
    decreases |bits|
  {
    if |bits| < 8 then [] else [ByteOf(bits[..8])] + Octets(bits[8..])
  }

  function Decoded(text: string): Option<seq<bv8>> {
    if forall c <- text :: c in BASE32 then Some(Octets(TextBits(text))) else None
  }

  lemma LetterRoundTrip(bits: seq<bool>)
    requires |bits| == 5
    ensures Letter(bits) in BASE32 && LetterBits(Letter(bits)) == bits
  {
    IndexOfLetter(Value(bits));
    BitsOfValue(bits);
  }

  lemma {:induction false} LettersRoundTrip(bits: seq<bool>) returns (fill: nat)
    ensures forall c <- Letters(bits) :: c in BASE32
    ensures fill < 5 && TextBits(Letters(bits)) == bits + Pad(fill)
    decreases |bits|
  {
    fill := 0;
    if 0 < |bits| < 5 {
      fill := 5 - |bits|;
      LetterRoundTrip(bits + Pad(fill));
      assert Letters(bits) == [Letter(bits + Pad(fill))];
    } else if |bits| >= 5 {
      LetterRoundTrip(bits[..5]);
      fill := LettersRoundTrip(bits[5..]);
      var c, rest := Letter(bits[..5]), Letters(bits[5..]);
      LettersUnfold(bits, c, rest);
      LettersStep(bits, c, rest, fill);
    }
  }

  lemma TextStep(c: char, rest: string, head: seq<bool>, tail: seq<bool>)
    requires c in BASE32 && LetterBits(c) == head
    requires (forall d <- rest :: d in BASE32) && TextBits(rest) == tail
    ensures (forall d <- [c] + rest :: d in BASE32) && TextBits([c] + rest) == head + tail
  {
    assert ([c] + rest)[1..] == rest;
  }

  lemma LettersUnfold(bits: seq<bool>, c: char, rest: string)
    requires |bits| >= 5 && c == Letter(bits[..5]) && rest == Letters(bits[5..])
    ensures Letters(bits) == [c] + rest
  {
  }

  lemma LettersStep(bits: seq<bool>, c: char, rest: string, fill: nat)
    requires |bits| >= 5 && c in BASE32 && LetterBits(c) == bits[..5]
    requires (forall d <- rest :: d in BASE32) && TextBits(rest) == bits[5..] + Pad(fill)
    ensures (forall d <- [c] + rest :: d in BASE32) && TextBits([c] + rest) == bits + Pad(fill)
  {
    TextStep(c, rest, bits[..5], bits[5..] + Pad(fill));
    assert bits[..5] + (bits[5..] + Pad(fill)) == bits + Pad(fill);
  }

  lemma {:induction false} OctetsOfBytes(bytes: seq<bv8>, tail: seq<bool>)
    requires |tail| < 8
    ensures Octets(Bits(bytes) + tail) == bytes
    decreases |bytes|
  {
    if bytes != [] {
      var bits := Bits(bytes) + tail;
      assert bits[..8] == ByteBits(bytes[0]) && bits[8..] == Bits(bytes[1..]) + tail;
      ByteRoundTrip(bytes[0]);
      OctetsOfBytes(bytes[1..], tail);
    }
  }

  /** Decoding undoes base32 on every byte sequence. */
  lemma Base32RoundTrip(bytes: seq<bv8>)
    ensures Decoded(Letters(Bits(bytes))) == Some(bytes)
  {
    var fill := LettersRoundTrip(Bits(bytes));
    OctetsOfBytes(bytes, Pad(fill));
  }

  /** The weight of a bit; past the end there are only zeros. */
  function WeightAt(bits: seq<bool>, i: nat): nat { if i < |bits| && bits[i] then 1 else 0 }

  function FiveAt(bits: seq<bool>, i: nat): nat {
    16 * WeightAt(bits, i) + 8 * WeightAt(bits, i + 1) + 4 * WeightAt(bits, i + 2) + 2 * WeightAt(bits, i + 3)
    + WeightAt(bits, i + 4)
  }

  /** A to Z below 26, then 2 to 7. */
  predicate Spells(c: char, n: nat) { c as int == if n < 26 then 65 + n else 24 + n }

  lemma LetterOfFive(five: seq<bool>)
    requires |five| == 5
    ensures Spells(Letter(five), FiveAt(five, 0))
  {
    ValueOfFive(five[0], five[1], five[2], five[3], five[4]);
    assert five == [five[0], five[1], five[2], five[3], five[4]];
    AlphabetAt(Value(five));
  }

  lemma FiveAcross(bits: seq<bool>, i: nat)
    requires |bits| >= 5
    ensures FiveAt(bits[..5], 0) == FiveAt(bits, 0) && FiveAt(bits[5..], i) == FiveAt(bits, i + 5)
  {
    assert forall j: nat :: WeightAt(bits[5..], j) == WeightAt(bits, j + 5);
  }

  lemma FiveFilled(bits: seq<bool>)
    requires |bits| < 5
    ensures FiveAt(bits + Pad(5 - |bits|), 0) == FiveAt(bits, 0)
  {
    assert forall j: nat :: WeightAt(bits + Pad(5 - |bits|), j) == WeightAt(bits, j);
  }

  ghost predicate AllSpelled(text: string, bits: seq<bool>) {
    |text| == (|bits| + 4) / 5 && forall k | 0 <= k < |text| :: Spells(text[k], FiveAt(bits, 5 * k))
  }

  lemma SpelledOn(bits: seq<bool>, c: char, rest: string)
    requires |bits| >= 5 && Spells(c, FiveAt(bits, 0)) && AllSpelled(rest, bits[5..])
    ensures AllSpelled([c] + rest, bits)
  {
    forall k | 1 <= k < |rest| + 1 ensures Spells(([c] + rest)[k], FiveAt(bits, 5 * k)) {
      FiveAcross(bits, 5 * (k - 1));
    }
  }

  lemma {:induction false} LettersSpelled(bits: seq<bool>)
    ensures AllSpelled(Letters(bits), bits)
    decreases |bits|
  {
    if bits == [] {
    } else if |bits| < 5 {
      LetterOfFive(bits + Pad(5 - |bits|));
      FiveFilled(bits);
    } else {
      LetterOfFive(bits[..5]);
      FiveAcross(bits, 0);
      LettersSpelled(bits[5..]);
      LettersUnfold(bits, Letter(bits[..5]), Letters(bits[5..]));
      SpelledOn(bits, Letter(bits[..5]), Letters(bits[5..]));
    }
  }

  /** Letter k spells bits 5k to 5k + 4, zeros past the end. */
  lemma LettersExactly(bits: seq<bool>, k: nat)
    ensures |Letters(bits)| == (|bits| + 4) / 5
    ensures k < |Letters(bits)| ==> var n := FiveAt(bits, 5 * k);
      Letters(bits)[k] as int == if n < 26 then 65 + n else 24 + n
  {
    LettersSpelled(bits);
  }

  // ---------- the accumulator ----------
  // `value` is a 32-bit word that is shifted left without ever being masked: old bits fall off the top.

  /** The accumulator's low bits are the bits still pending. */
  ghost predicate Holds(value: nat, pending: seq<bool>) { Low(value, |pending|) == Value(pending) }

  lemma ShiftLow(value: nat, m: nat, n: nat, digit: nat, size: nat)
    requires m + n <= size && digit < Pow2(n)
    ensures Low(Low(Scale(value, n) + digit, size), m + n) == Scale(Low(value, m), n) + digit
  {
    LowOfLow(Scale(value, n) + digit, size, m + n);
    LowOfScaled(value, m, n, digit);
  }

  lemma HoldsJoin(value: nat, pending: seq<bool>, group: seq<bool>)
    requires Low(value, |pending| + |group|) == Scale(Value(pending), |group|) + Value(group)
    ensures Holds(value, pending + group)
  {
    ValueJoin(pending, group);
  }

  /** Shifting a group of bits in appends it to what is pending, wrapped or not. */
  lemma ShiftHolds(before: nat, after: nat, pending: seq<bool>, group: seq<bool>, size: nat)
    requires Holds(before, pending) && |pending| + |group| <= size
    requires after == Low(Scale(before, |group|) + Value(group), size)
    ensures Holds(after, pending + group)
  {
    ShiftLow(before, |pending|, |group|, Value(group), size);
    HoldsJoin(after, pending, group);
  }

  lemma {:induction false} PeelLow(value: nat, h: nat, t: nat, x: nat, y: nat)
    requires y < Pow2(t) && Low(value, h + t) == Scale(x, t) + y
    ensures Low(Drop(value, t), h) == x && Low(value, t) == y
    decreases t
  {
    if t > 0 {
      PeelLow(value / 2, h, t - 1, x, y / 2);
    }
  }

  /** Reading the oldest bits off the top leaves the rest pending. */
  lemma PeelHolds(value: nat, head: seq<bool>, tail: seq<bool>)
    requires Holds(value, head + tail)
    ensures Low(Drop(value, |tail|), |head|) == Value(head)
    ensures Holds(value, tail)
  {
    ValueJoin(head, tail);
    PeelLow(value, |head|, |tail|, Value(head), Value(tail));
  }

  // ---------- the same, in the word ----------

  /** The word's low bits are the bits still pending. */
  predicate Pends(word: bv32, pending: seq<bool>) {
    pending == [] || (Odd(word) == pending[|pending| - 1] && Pends(Down(word), pending[..|pending| - 1]))
  }

  lemma {:induction false} PendsExactly(word: bv32, pending: seq<bool>)
    ensures Pends(word, pending) <==> Holds(Num(word), pending)
    decreases |pending|
  {
    if pending != [] {
      HalfOf(word);
      PendsExactly(Down(word), pending[..|pending| - 1]);
    }
  }

  lemma {:induction false} PendsTail(word: bv32, pending: seq<bool>, n: nat)
    requires n <= |pending| && Pends(word, pending)
    ensures Pends(word, pending[n..])
    decreases |pending|
  {
    if n < |pending| {
      var front := pending[..|pending| - 1];
      PendsTail(Down(word), front, n);
      assert pending[n..][..|pending| - n - 1] == front[n..];
    }
  }

  /** Shifting left and filling a digit in appends the digit's bits to what is pending. */
  lemma GroupIn(word: bv32, shifted: bv32, digit: bv32, pending: seq<bool>, group: seq<bool>)
    requires shifted == Left(word, |group|) && Num(digit) == Value(group) && |pending| + |group| <= 32
    requires Pends(word, pending)
    ensures Pends(Or(shifted, digit), pending + group)
  {
    PendsExactly(word, pending);
    FilledIn(word, |group|, digit);
    ShiftHolds(Num(word), Num(Or(shifted, digit)), pending, group, 32);
    NowPends(Or(shifted, digit), pending + group);
  }

  lemma NowPends(word: bv32, pending: seq<bool>)
    requires Holds(Num(word), pending)
    ensures Pends(word, pending)
  {
    PendsExactly(word, pending);
  }

  /** The oldest pending bits are the number that many places up. */
  lemma TopBits(word: bv32, pending: seq<bool>, n: nat)
    requires n <= |pending| && Pends(word, pending)
    ensures Low(Num(Right(word, |pending| - n)), n) == Value(pending[..n])
  {
    assert pending == pending[..n] + pending[n..];
    PendsExactly(word, pending);
    PeelHolds(Num(word), pending[..n], pending[n..]);
    RightDrops(word, |pending| - n);
  }

  lemma Masked(word: bv32)
    ensures Num(word & 31) == Low(Num(word), 5) < 32
    ensures Num(word & 255) == Low(Num(word), 8) < 256
  {
    SomeOnes();
    MaskedLow(word, 5);
    MaskedLow(word, 8);
    Fits(Low(Num(word), 5));
  }

  lemma Fits(number: nat)
    ensures Pow2(5) == 32 && Pow2(8) == 256
  {
  }

  lemma LetterBack(number: nat, group: seq<bool>)
    requires |group| == 5 && number == Value(group)
    ensures number < 32 && BASE32[number] == Letter(group)
  {
    Fits(number);
  }

  lemma SameBits(a: seq<bool>, b: seq<bool>)
    requires |a| == |b| && Value(a) == Value(b)
    ensures a == b
  {
    BitsOfValue(a);
    BitsOfValue(b);
  }

  lemma AsWord(index: nat)
    requires index < 256
    ensures Num(index as bv32) == index
  {
    var b := SomeByte(index);
    Widened(b);
    WordBack(b as bv32);
  }

  lemma FiveOut(shifted: bv32, group: seq<bool>)
    requires |group| == 5 && Low(Num(shifted), 5) == Value(group)
    ensures Num(shifted & 31) < 32 && BASE32[Num(shifted & 31)] == Letter(group)
  {
    Masked(shifted);
    LetterBack(Num(shifted & 31), group);
  }

  lemma EightOut(shifted: bv32, byte: bv8, group: seq<bool>)
    requires |group| == 8 && Low(Num(shifted), 8) == Value(group) && byte == (shifted & 255) as bv8
    ensures ByteBits(byte) == group
  {
    Masked(shifted);
    Narrowed(shifted);
    ByteValue(byte);
    SameBits(ByteBits(byte), group);
  }

  // ---------- the loops' steps on the word ----------

  method TakeByte(value: bv32, byte: bv8, ghost pending: seq<bool>) returns (r: bv32)
    requires |pending| <= 24 && Pends(value, pending)
    ensures Pends(r, pending + ByteBits(byte))
  {
    LeftIsShift(value);
    Widened(byte);
    ByteValue(byte);
    GroupIn(value, value << 8, byte as bv32, pending, ByteBits(byte));
    r := (value << 8) | (byte as bv32);
  }

  method TakeIndex(value: bv32, index: nat, ghost pending: seq<bool>) returns (r: bv32)
    requires |pending| <= 27 && Pends(value, pending) && index < 32
    ensures Pends(r, pending + BitsOf(index, 5))
  {
    LeftIsShift(value);
    AsWord(index);
    Fits(index);
    ValueOfBits(index, 5);
    GroupIn(value, value << 5, index as bv32, pending, BitsOf(index, 5));
    r := (value << 5) | (index as bv32);
  }

  method TopLetter(value: bv32, bits: nat, ghost pending: seq<bool>) returns (c: char)
    requires 5 <= bits == |pending| <= 12 && Pends(value, pending)
    ensures c == Letter(pending[..5])
  {
    var shifted := Right(value, bits - 5);
    TopBits(value, pending, 5);
    FiveOut(shifted, pending[..5]);
    c := BASE32[(shifted & 31) as int];
  }

  method LastLetter(value: bv32, bits: nat, ghost pending: seq<bool>) returns (c: char)
    requires 0 < bits == |pending| < 5 && Pends(value, pending)
    ensures c == Letter(pending + Pad(5 - bits))
  {
    var shifted := Left(value, 5 - bits);
    ghost var group := pending + Pad(5 - bits);
    ValueOfPad(5 - bits);
    GroupIn(value, shifted, 0, pending, Pad(5 - bits));
    OrZero(shifted);
    TopBits(shifted, group, 5);
    assert group[..5] == group;
    FiveOut(shifted, group);
    c := BASE32[(shifted & 31) as int];
  }

  method TopByte(value: bv32, bits: nat, ghost pending: seq<bool>) returns (b: bv8)
    requires 8 <= bits == |pending| <= 12 && Pends(value, pending)
    ensures ByteBits(b) == pending[..8]
  {
    var shifted := Right(value, bits - 8);
    TopBits(value, pending, 8);
    b := (shifted & 255) as bv8;
    EightOut(shifted, b, pending[..8]);
  }

  // ---------- writing ----------

  /** What is written, with what is pending and still to come, is the text of the whole. */
  ghost predicate Writing(out: string, pending: seq<bool>, rest: seq<bool>, whole: seq<bool>) {
    out + Letters(pending + rest) == Letters(whole)
  }

  lemma BitsFrom(bytes: seq<bv8>, i: nat)
    requires i < |bytes|
    ensures Bits(bytes[i..]) == ByteBits(bytes[i]) + Bits(bytes[i + 1..])
  {
    assert bytes[i..][1..] == bytes[i + 1..];
  }

  lemma TakeIn(pending: seq<bool>, group: seq<bool>, rest: seq<bool>, out: string, whole: seq<bool>)
    requires Writing(out, pending, group + rest, whole)
    ensures Writing(out, pending + group, rest, whole)
  {
    assert pending + (group + rest) == (pending + group) + rest;
  }

  lemma WriteOne(pending: seq<bool>, out: string, rest: seq<bool>, whole: seq<bool>)
    requires |pending| >= 5 && Writing(out, pending, rest, whole)
    ensures Writing(out + [Letter(pending[..5])], pending[5..], rest, whole)
  {
    var letter := Letter(pending[..5]);
    assert (pending + rest)[..5] == pending[..5] && (pending + rest)[5..] == pending[5..] + rest;
    assert out + ([letter] + Letters(pending[5..] + rest)) == (out + [letter]) + Letters(pending[5..] + rest);
  }

  lemma WriteLast(pending: seq<bool>, out: string, letter: char, whole: seq<bool>)
    requires 0 < |pending| < 5 && Writing(out, pending, [], whole) && letter == Letter(pending + Pad(5 - |pending|))
    ensures out + [letter] == Letters(whole)
  {
    assert pending + [] == pending;
  }

  lemma NothingLeft(pending: seq<bool>, out: string, whole: seq<bool>)
    requires pending == [] && Writing(out, pending, [], whole)
    ensures out == Letters(whole)
  {
    assert pending + [] == pending;
  }

  lemma NothingWritten(bytes: seq<bv8>)
    ensures Writing("", [], Bits(bytes[0..]), Bits(bytes))
  {
    assert bytes[0..] == bytes && [] + Bits(bytes) == Bits(bytes);
  }

  lemma TakeByteIn(pending: seq<bool>, out: string, bytes: seq<bv8>, i: nat)
    requires i < |bytes| && Writing(out, pending, Bits(bytes[i..]), Bits(bytes))
    ensures Writing(out, pending + ByteBits(bytes[i]), Bits(bytes[i + 1..]), Bits(bytes))
  {
    BitsFrom(bytes, i);
    TakeIn(pending, ByteBits(bytes[i]), Bits(bytes[i + 1..]), out, Bits(bytes));
  }

  method Base32(bytes: seq<bv8>) returns (out: string)
    ensures out == Letters(Bits(bytes))
  {
    var bits: nat, value: bv32 := 0, 0;
    out := "";
    ghost var pending: seq<bool>, whole := [], Bits(bytes);
    NothingWritten(bytes);
    for i := 0 to |bytes|
      invariant bits == |pending| < 5 && Pends(value, pending)
      invariant Writing(out, pending, Bits(bytes[i..]), whole)
    {
      TakeByteIn(pending, out, bytes, i);
      ghost var group, rest := ByteBits(bytes[i]), Bits(bytes[i + 1..]);
      value := TakeByte(value, bytes[i], pending);
      bits := bits + 8;
      pending := pending + group;
      while bits >= 5
        invariant bits == |pending| <= 12 && Pends(value, pending)
        invariant Writing(out, pending, rest, whole)
      {
        WriteOne(pending, out, rest, whole);
        PendsTail(value, pending, 5);
        var letter := TopLetter(value, bits, pending);
        out := out + [letter];
        bits := bits - 5;
        pending := pending[5..];
      }
    }
    assert bytes[|bytes|..] == [];
    if bits > 0 {
      var letter := LastLetter(value, bits, pending);
      WriteLast(pending, out, letter, whole);
      out := out + [letter];
    } else {
      NothingLeft(pending, out, whole);
    }
  }

  // ---------- reading ----------

  lemma NextByte(b: bv8)
    requires b as int < 255
    ensures (b + 1) as int == b as int + 1
  {
    BelowTop(b);
    Incremented(b);
  }

  lemma BelowTop(b: bv8)
    requires b as int < 255
    ensures b != 255
  {
  }

  lemma Incremented(b: bv8)
    requires b != 255
    ensures (b + 1) as int == b as int + 1
  {
  }

  lemma {:induction false} SomeByte(v: nat) returns (b: bv8)
    requires v < 256
    ensures b as int == v
    decreases v
  {
    b := 0;
    if v > 0 {
      b := SomeByte(v - 1);
      NextByte(b);
      b := b + 1;
    }
  }

  lemma {:induction false} TextJoin(a: string, b: string)
    requires (forall c <- a :: c in BASE32) && (forall c <- b :: c in BASE32)
    ensures forall c <- a + b :: c in BASE32
    ensures TextBits(a + b) == TextBits(a) + TextBits(b)
    decreases |a|
  {
    if a == [] {
      assert a + b == b;
    } else {
      assert (a + b)[1..] == a[1..] + b;
      TextJoin(a[1..], b);
    }
  }

  lemma TakeLetter(seed: string, i: nat)
    requires i < |seed| && seed[i] in BASE32 && forall c <- seed[..i] :: c in BASE32
    ensures forall c <- seed[..i + 1] :: c in BASE32
    ensures TextBits(seed[..i + 1]) == TextBits(seed[..i]) + LetterBits(seed[i])
  {
    assert seed[..i + 1] == seed[..i] + [seed[i]];
    assert TextBits([seed[i]]) == LetterBits(seed[i]);
    TextJoin(seed[..i], [seed[i]]);
  }

  /** The bytes read so far and the bits pending are the bits of the text read so far. */
  ghost predicate Reading(bytes: seq<bv8>, pending: seq<bool>, bits: seq<bool>) { Bits(bytes) + pending == bits }

  lemma ReadOne(pending: seq<bool>, bytes: seq<bv8>, byte: bv8, bits: seq<bool>)
    requires |pending| >= 8 && ByteBits(byte) == pending[..8] && Reading(bytes, pending, bits)
    ensures Reading(bytes + [byte], pending[8..], bits)
  {
    BitsJoin(bytes, [byte]);
    assert Bits([byte]) == ByteBits(byte);
    assert (Bits(bytes) + pending[..8]) + pending[8..] == Bits(bytes) + pending;
  }

  lemma ReadIn(bytes: seq<bv8>, pending: seq<bool>, bits: seq<bool>, group: seq<bool>)
    requires Reading(bytes, pending, bits)
    ensures Reading(bytes, pending + group, bits + group)
  {
    assert Bits(bytes) + (pending + group) == (Bits(bytes) + pending) + group;
  }

  /** The bytes a seed's text holds, without the two in front and from the thirty-fifth on. */
  function Kept(bytes: seq<bv8>): seq<bv8> {
    if |bytes| <= 2 then [] else if |bytes| <= 34 then bytes[2..] else bytes[2..34]
  }

  /** What `decodeSeed` returns; None where it throws. */
  function SeedOf(text: string): Option<seq<bv8>> {
    match Decoded(text)
    case None => None
    case Some(bytes) => Some(Kept(bytes))
  }

  method DecodeSeed(seed: string) returns (raw: Option<seq<bv8>>)
    ensures raw == SeedOf(seed)
  {
    var bits: nat, value: bv32 := 0, 0;
    var bytes: seq<bv8> := [];
    ghost var pending: seq<bool> := [];
    for i := 0 to |seed|
      invariant bits == |pending| < 8 && Pends(value, pending)
      invariant forall c <- seed[..i] :: c in BASE32
      invariant Reading(bytes, pending, TextBits(seed[..i]))
    {
      var index := IndexOf(BASE32, seed[i]);
      if index < 0 {
        return None;
      }
      TakeLetter(seed, i);
      ReadIn(bytes, pending, TextBits(seed[..i]), LetterBits(seed[i]));
      value := TakeIndex(value, index, pending);
      bits := bits + 5;
      pending := pending + LetterBits(seed[i]);
      if bits >= 8 {
        var byte := TopByte(value, bits, pending);
        ReadOne(pending, bytes, byte, TextBits(seed[..i + 1]));
        PendsTail(value, pending, 8);
        bytes := bytes + [byte];
        bits := bits - 8;
        pending := pending[8..];
      }
    }
    assert seed[..|seed|] == seed;
    OctetsOfBytes(bytes, pending);
    raw := Some(Kept(bytes));
  }

  // ---------- seeds ----------

  const PREFIX_SEED: bv8 := 18 << 3
  const PREFIX_USER: bv8 := 20 << 3

  function Prefix(): (p: seq<bv8>)
    ensures |p| == 2
  {
    [PREFIX_SEED | (PREFIX_USER >> 5), (PREFIX_USER & 31) << 3]
  }

  /** The text of a seed: prefix, seed and checksum in base32. */
  function Encoded(raw: seq<bv8>): string { Letters(Bits(Checked(Prefix() + raw))) }

  method EncodeSeed(raw: seq<bv8>, table: array<bv16>) returns (seed: string)
    requires IsTable(table[..])
    ensures seed == Encoded(raw)
  {
    var checked := WithChecksum(Prefix() + raw, table);
    seed := Base32(checked);
  }

  lemma KeptExactly(prefix: seq<bv8>, raw: seq<bv8>, sum: seq<bv8>)
    requires |prefix| == |sum| == 2
    ensures Kept(prefix + raw + sum) == raw <==> |raw| == 32
  {
    var bytes := prefix + raw + sum;
    assert |bytes| == |raw| + 4;
    if |raw| == 32 {
      assert bytes[2..34] == raw;
    }
  }

  /** A seed survives the text form exactly when it has the 32 bytes the decoder cuts out. */
  lemma SeedRoundTrip(raw: seq<bv8>)
    ensures SeedOf(Encoded(raw)) == Some(raw) <==> |raw| == 32
  {
    var bytes := Checked(Prefix() + raw);
    Base32RoundTrip(bytes);
    KeptExactly(Prefix(), raw, bytes[|raw| + 2..]);
    assert bytes == Prefix() + raw + bytes[|raw| + 2..];
  }

  /** Neither prefix nor checksum is read: whatever they are, a text of 32 bytes between them yields the 32. */
  lemma ChecksumUnread(prefix: seq<bv8>, raw: seq<bv8>, sum: seq<bv8>)
    requires |prefix| == |sum| == 2 && |raw| == 32
    ensures SeedOf(Letters(Bits(prefix + raw + sum))) == Some(raw)
  {
    Base32RoundTrip(prefix + raw + sum);
    KeptExactly(prefix, raw, sum);
  }

  lemma PrefixBits()
    ensures Bits(Prefix()) == [true, false, false, true, false, true, false, true] + Pad(8)
  {
  }

  lemma BitsOfThree(prefix: seq<bv8>, raw: seq<bv8>, low: bv8, high: bv8)
    ensures Bits(prefix + raw + [low, high]) == Bits(prefix) + Bits(raw) + ByteBits(low) + ByteBits(high)
  {
    BitsJoin(prefix + raw, [low, high]);
    BitsJoin(prefix, raw);
    assert [low, high][1..] == [high] && [high][1..] == [];
    assert Bits([high]) == ByteBits(high) + Bits([]);
    assert Bits([low, high]) == ByteBits(low) + Bits([high]);
  }

  /** By hand: the prefix's sixteen bits, the seed's, then the low and the high byte of what division leaves. */
  lemma SeedByHand(raw: seq<bv8>)
    ensures var said := [true, false, false, true, false, true, false, true] + seq(8, _ => false) + Bits(raw);
      var rest := Remainder(said + seq(16, _ => false));
      |rest| == 16 && Encoded(raw) == Letters(said + rest[8..] + rest[..8])
  {
    var bytes := Checked(Prefix() + raw);
    var low, high := bytes[|raw| + 2], bytes[|raw| + 3];
    CheckedByHand(Prefix() + raw);
    assert bytes == Prefix() + raw + [low, high];
    BitsOfThree(Prefix(), raw, low, high);
    BitsJoin(Prefix(), raw);
    PrefixBits();
    assert Pad(8) == seq(8, _ => false);
    var rest := ByteBits(high) + ByteBits(low);
    assert rest[8..] == ByteBits(low) && rest[..8] == ByteBits(high);
  }

  /** Every seed written starts with "SU", whatever its bytes. */
  lemma SeedStartsWithSU(raw: seq<bv8>)
    ensures |Encoded(raw)| >= 2 && Encoded(raw)[..2] == "SU"
  {
    var bytes := Checked(Prefix() + raw);
    var rest := bytes[2..];
    assert bytes == Prefix() + rest;
    BitsJoin(Prefix(), rest);
    PrefixBits();
    FirstTwo(Bits(bytes), Pad(6) + Bits(rest));
  }

  lemma FirstTwo(bits: seq<bool>, rest: seq<bool>)
    requires bits == [true, false, false, true, false] + [true, false, true, false, false] + rest
    ensures |Letters(bits)| >= 2 && Letters(bits)[..2] == "SU"
  {
    var s, u := [true, false, false, true, false], [true, false, true, false, false];
    assert bits[..5] == s && bits[5..] == u + rest && (u + rest)[..5] == u;
    ValueOfFive(true, false, false, true, false);
    ValueOfFive(true, false, true, false, false);
    AlphabetAt(18);
    AlphabetAt(20);
    assert Letters(bits) == ['S'] + (['U'] + Letters((u + rest)[5..]));
  }

  lemma ValueOfFive(p: bool, q: bool, s: bool, t: bool, u: bool)
    ensures Value([p, q, s, t, u]) == 16 * Digit(p) + 8 * Digit(q) + 4 * Digit(s) + 2 * Digit(t) + Digit(u)
  {
    assert [p, q, s, t, u][..4] == [p, q, s, t];
    ValueOfFour(p, q, s, t);
  }

  // ---------- keeping a seed on disk ----------

  predicate Space(c: char) { IsBlank(c as int) }

  /** The seed in use and what the file holds afterwards; `drawn` is the seed drawn if one is needed. */
  function Keep(file: Option<string>, rotate: bool, drawn: string): (string, string) {
    if !rotate && file.Some? && "SU" <= Trim(file.value, Space) then (Trim(file.value, Space), file.value)
    else (drawn, drawn + "\n")
  }

  function LoadOrCreateSeed(file: Option<string>, rotate: bool, raw: seq<bv8>): (string, string) {
    Keep(file, rotate, Encoded(raw))
  }

  /** A seed on file stands; rotation, no file, or a file without a seed draws a new one and writes it. */
  lemma SeedChosen(file: Option<string>, rotate: bool, raw: seq<bv8>)
    ensures !rotate && file.Some? && "SU" <= Trim(file.value, Space) ==>
      LoadOrCreateSeed(file, rotate, raw) == (Trim(file.value, Space), file.value)
    ensures rotate || file.None? || !("SU" <= Trim(file.value, Space)) ==>
      LoadOrCreateSeed(file, rotate, raw) == (Encoded(raw), Encoded(raw) + "\n")
  {
  }

  lemma LetterIsNoSpace(c: char)
    requires c in BASE32
    ensures !Space(c)
  {
    AlphabetAt(IndexOf(BASE32, c));
  }

  lemma TrimLine(s: string)
    requires s != [] && !Space(s[0]) && !Space(s[|s| - 1])
    ensures Trim(s + "\n", Space) == s
  {
    var line := s + "\n";
    assert line[0] == s[0] && line[|s|] == '\n' && Space('\n') && line[..|s|] == s;
    assert TrimStart(line, Space) == line;
    assert TrimEnd(s, Space) == s;
  }

  lemma KeptTwice(file: Option<string>, rotate: bool, drawn: string, later: string)
    requires "SU" <= drawn && Trim(drawn + "\n", Space) == drawn
    ensures Keep(Some(Keep(file, rotate, drawn).1), false, later) == Keep(file, rotate, drawn)
  {
  }

  lemma SeedLine(raw: seq<bv8>)
    ensures "SU" <= Encoded(raw) && Trim(Encoded(raw) + "\n", Space) == Encoded(raw)
  {
    var seed := Encoded(raw);
    SeedStartsWithSU(raw);
    var fill := LettersRoundTrip(Bits(Checked(Prefix() + raw)));
    LetterIsNoSpace(seed[0]);
    LetterIsNoSpace(seed[|seed| - 1]);
    TrimLine(seed);
  }

  /** A run finds the seed an earlier run left, unless told to rotate. */
  lemma SeedIsKept(file: Option<string>, rotate: bool, raw: seq<bv8>, later: seq<bv8>)
    ensures var (seed, written) := LoadOrCreateSeed(file, rotate, raw);
      LoadOrCreateSeed(Some(written), false, later) == (seed, written)
  {
    SeedLine(raw);
    KeptTwice(file, rotate, Encoded(raw), Encoded(later));
  }
}