/** Which keys JavaScript takes for array indices, by the numbers they spell. */
module ArrayIndices {
  import opened Prelude
  import opened Json

  predicate Digits(s: Str) { forall i | 0 <= i < |s| :: IsDigit(s[i]) }

  /** The number a string of decimal digits spells. */
  function Decimal(s: Str): nat
    requires Digits(s)
  {
    if s == [] then 0 else (s[0] - 48) * Power(10, |s| - 1) + Decimal(s[1..])
  }

  lemma DigitBound(d: nat, power: nat, rest: nat)
    requires d <= 9 && rest < power
    ensures d * power + rest < 10 * power
  {
    AtLeast(9, power, d, power);
  }

  lemma {:induction false} DecimalBound(s: Str)
    requires Digits(s)
    ensures Decimal(s) < Power(10, |s|)
    decreases |s|
  {
    if s != [] {
      DecimalBound(s[1..]);
      DigitBound(s[0] - 48, Power(10, |s| - 1), Decimal(s[1..]));
    }
  }

  lemma LeadingDigit(c: nat, d: nat, power: nat, x: nat, y: nat)
    requires x < power && y < power
    ensures c * power + x <= d * power + y <==> c < d || (c == d && x <= y)
  {
    if c < d {
      AtLeast(d, power, c + 1, power);
    } else if d < c {
      AtLeast(c, power, d + 1, power);
    }
  }

  /** Strings of digits of one length are in the order of their numbers. */
  lemma {:induction false} LexIsNumeric(a: Str, b: Str)
    requires Digits(a) && Digits(b) && |a| == |b|
    ensures LexLe(a, b) <==> Decimal(a) <= Decimal(b)
    decreases |a|
  {
    if a != [] {
      LexIsNumeric(a[1..], b[1..]);
      DecimalBound(a[1..]);
      DecimalBound(b[1..]);
      LeadingDigit(a[0] - 48, b[0] - 48, Power(10, |a| - 1), Decimal(a[1..]), Decimal(b[1..]));
    }
  }

  lemma AppendedValue(d: nat, power: nat, rest: nat, x: nat, last: nat)
    requires x == 10 * rest + last
    ensures d * (10 * power) + x == 10 * (d * power + rest) + last
  {
  }

  lemma {:induction false} DecimalAppend(s: Str, d: CodeUnit)
    requires Digits(s) && IsDigit(d)
    ensures Digits(s + [d]) && Decimal(s + [d]) == 10 * Decimal(s) + (d - 48)
    decreases |s|
  {
    var t := s + [d];
    assert Digits(t);
    if s == [] {
      assert t[1..] == [] && Decimal(t) == (d - 48) * Power(10, 0) + Decimal([]);
    } else {
      assert t[1..] == s[1..] + [d];
      DecimalAppend(s[1..], d);
      AppendedValue(s[0] - 48, Power(10, |s| - 1), Decimal(s[1..]), Decimal(s[1..] + [d]), d - 48);
    }
  }

  lemma {:induction false} PrintedDecimal(n: nat)
    ensures Digits(PrintNat(n)) && Decimal(PrintNat(n)) == n
    ensures PrintNat(n)[0] == 48 ==> n == 0 && |PrintNat(n)| == 1
    decreases n
  {
    if n < 10 {
      assert PrintNat(n) == [] + [48 + n];
      DecimalAppend([], 48 + n);
    } else {
      PrintedDecimal(n / 10);
      DecimalAppend(PrintNat(n / 10), 48 + n % 10);
    }
  }

  predicate NoLeadingZero(s: Str) { s != [] && (s[0] != 48 || |s| == 1) }

  /** A longer number is larger. */
  lemma LongerIsLarger(a: Str, b: Str)
    requires Digits(a) && Digits(b) && NoLeadingZero(b) && |a| < |b| && b[0] != 48
    ensures Decimal(a) < Decimal(b)
  {
    DecimalBound(a);
    PowerGrows(|a|, |b| - 1);
    AtLeast(b[0] - 48, Power(10, |b| - 1), 1, Power(10, |b| - 1));
  }

  lemma {:induction false} PowerGrows(m: nat, n: nat)
    requires m <= n
    ensures Power(10, m) <= Power(10, n)
    decreases n
  {
    if m < n {
      PowerGrows(m, n - 1);
    }
  }

  lemma Larger(a: Str, b: Str)
    requires Digits(a) && Digits(b) && NoLeadingZero(a) && NoLeadingZero(b)
    ensures Decimal(a) < Decimal(b) <==> |a| < |b| || (|a| == |b| && a != b && LexLe(a, b))
  {
    if |a| < |b| {
      LongerIsLarger(a, b);
    } else if |b| < |a| {
      LongerIsLarger(b, a);
    } else {
      LexIsNumeric(a, b);
      LexIsNumeric(b, a);
      LexLeTotal(a, b);
    }
  }

  /** A number has one spelling without leading zeros. */
  lemma OneSpelling(s: Str)
    requires Digits(s) && NoLeadingZero(s)
    ensures PrintNat(Decimal(s)) == s
  {
    var t := PrintNat(Decimal(s));
    PrintedDecimal(Decimal(s));
    Larger(s, t);
    Larger(t, s);
    LexIsNumeric(s, t);
    LexLeTotal(s, t);
  }

  lemma NextDigit(front: nat, d: nat, s: Str, t: Str)
    requires front > 0 && d < 10 && PrintNat(front) == s && t == s + [48 + d]
    ensures PrintNat(10 * front + d) == t
  {
  }

  lemma LargestIndex()
    ensures Lit("4294967294") == PrintNat(4294967294) && |Lit("4294967294")| == 10
  {
    NextDigit(4, 2, [52], [52, 50]);
    NextDigit(42, 9, [52, 50], [52, 50, 57]);
    NextDigit(429, 4, [52, 50, 57], [52, 50, 57, 52]);
    NextDigit(4294, 9, [52, 50, 57, 52], [52, 50, 57, 52, 57]);
    NextDigit(42949, 6, [52, 50, 57, 52, 57], [52, 50, 57, 52, 57, 54]);
    NextDigit(429496, 7, [52, 50, 57, 52, 57, 54], [52, 50, 57, 52, 57, 54, 55]);
    NextDigit(4294967, 2, [52, 50, 57, 52, 57, 54, 55], [52, 50, 57, 52, 57, 54, 55, 50]);
    NextDigit(42949672, 9, [52, 50, 57, 52, 57, 54, 55, 50], [52, 50, 57, 52, 57, 54, 55, 50, 57]);
    NextDigit(429496729, 4, [52, 50, 57, 52, 57, 54, 55, 50, 57], [52, 50, 57, 52, 57, 54, 55, 50, 57, 52]);
    assert Lit("4294967294") == [52, 50, 57, 52, 57, 54, 55, 50, 57, 52];
  }

  lemma BoundExactly(key: Str)
    requires Digits(key) && NoLeadingZero(key)
    ensures Decimal(key) <= 4294967294 <==> |key| < 10 || (|key| == 10 && LexLe(key, Lit("4294967294")))
  {
    var top := Lit("4294967294");
    LargestIndex();
    PrintedDecimal(4294967294);
    Larger(top, key);
    LexLeTotal(top, key);
  }

  /** Array indices are the decimals below 2^32 - 1, without leading zeros, and they are ordered by number. */
  lemma ArrayIndexExactly(key: Str, m: nat, n: nat)
    requires m <= 4294967294 && n <= 4294967294
    ensures IsArrayIndex(key) <==> exists k: nat | k <= 4294967294 :: key == PrintNat(k)
    ensures IndexBefore(PrintNat(m), PrintNat(n)) <==> m < n
  {
    if IsArrayIndex(key) {
      BoundExactly(key);
      OneSpelling(key);
    }
    forall k: nat | k <= 4294967294 ensures IsArrayIndex(PrintNat(k)) {
      PrintedDecimal(k);
      BoundExactly(PrintNat(k));
    }
    PrintedDecimal(m);
    PrintedDecimal(n);
    Larger(PrintNat(m), PrintNat(n));
  }
}
