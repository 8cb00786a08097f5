/** A 32-bit word as a number: what shifting, filling in and masking it do. */
module Word {

  // ---------- numbers in binary ----------

  function Pow2(n: nat): (p: nat)
    ensures p > 0
  {
    if n == 0 then 1 else 2 * Pow2(n - 1)
  }

  /** x shifted left, unbounded. */
  function Scale(x: nat, n: nat): nat {
    if n == 0 then x else 2 * Scale(x, n - 1)
  }

  /** x shifted right. */
  function Drop(x: nat, n: nat): nat {
    if n == 0 then x else Drop(x / 2, n - 1)
  }

  /** The lowest n bits of x: what `& (2^n - 1)` leaves, and for n = 32 what a 32-bit integer keeps. */
  function Low(x: nat, n: nat): (r: nat)
    ensures r < Pow2(n)
  {
    if n == 0 then 0 else 2 * Low(x / 2, n - 1) + x % 2
  }

  lemma {:induction false} LowOfLow(x: nat, m: nat, n: nat)
    requires n <= m
    ensures Low(Low(x, m), n) == Low(x, n)
    decreases n
  {
    if n > 0 {
      LowOfLow(x / 2, m - 1, n - 1);
    }
  }

  lemma {:induction false} LowOfScaled(x: nat, m: nat, n: nat, digit: nat)
    requires digit < Pow2(n)
    ensures Low(Scale(x, n) + digit, m + n) == Scale(Low(x, m), n) + digit
    decreases n
  {
    if n > 0 {
      LowOfScaled(x, m, n - 1, digit / 2);
      assert (Scale(x, n) + digit) / 2 == Scale(x, n - 1) + digit / 2;
    }
  }

  lemma {:induction false} LowTop(x: nat, n: nat)
    ensures x < Pow2(n) ==> Low(x, n) == x
    ensures Pow2(n) <= x < 2 * Pow2(n) ==> Low(x, n) == x - Pow2(n)
    decreases n
  {
    if n > 0 {
      LowTop(x / 2, n - 1);
    }
  }

  lemma {:induction false} LowOfZero(n: nat)
    ensures Low(0, n) == 0 && Scale(0, n) == 0
    decreases n
  {
    if n > 0 {
      LowOfZero(n - 1);
    }
  }

  lemma WordSize()
    ensures Pow2(32) == 0x1_0000_0000
  {
    assert Pow2(8) == 0x100;
    assert Pow2(16) == 0x1_0000;
    assert Pow2(24) == 0x100_0000;
  }

  // ---------- the word, one place at a time ----------

  function Num(v: bv32): nat { v as int }

  function Up(v: bv32): bv32 { v << 1 }

  function Down(v: bv32): bv32 { v >> 1 }

  function Odd(v: bv32): bool { v & 1 != 0 }

  function High(v: bv32): bool { v & 0x8000_0000 != 0 }

  function Or(v: bv32, d: bv32): bv32 { v | d }

  function And(v: bv32, mask: bv32): bv32 { v & mask }

  /** n times one place up: `v << n` wherever the loops use it (LeftIsShift). */
  function Left(v: bv32, n: nat): bv32 { if n == 0 then v else Up(Left(v, n - 1)) }

  /** n times one place down: `v >>> n` wherever the loops use it (RightIsShift). */
  function Right(v: bv32, n: nat): bv32 { if n == 0 then v else Right(Down(v), n - 1) }

  function Ones(n: nat): bv32 { if n == 0 then 0 else Or(Up(Ones(n - 1)), 1) }

  lemma Bounded(v: bv32)
    ensures Num(v) < 0x1_0000_0000
  {
  }

  lemma Doubled(v: bv32)
    ensures Num(Up(v)) == if High(v) then 2 * Num(v) - 0x1_0000_0000 else 2 * Num(v)
  {
  }

  lemma OddAbove(v: bv32)
    ensures ((v << 1) | 1) as int == (v << 1) as int + 1
  {
  }

  lemma DoubledPlus(v: bv32)
    ensures Num(Or(Up(v), 1)) == Num(Up(v)) + 1
  {
    OddAbove(v);
  }

  lemma Halves(v: bv32)
    ensures v == if Odd(v) then Or(Up(Down(v)), 1) else Up(Down(v))
    ensures !High(Down(v))
  {
  }

  lemma HalfNumber(n: nat, half: nat, doubled: nat, plus: nat, odd: bool)
    requires doubled == 2 * half && plus == doubled + 1 && n == if odd then plus else doubled
    ensures half == n / 2 && (odd <==> n % 2 == 1)
  {
  }

  lemma DownUp(v: bv32)
    ensures Num(Up(Down(v))) == 2 * Num(Down(v))
  {
    Halves(v);
    Doubled(Down(v));
  }

  lemma HalfFrom(v: bv32, half: bv32, doubled: bv32, plus: bv32)
    requires v == (if Odd(v) then plus else doubled)
    requires Num(doubled) == 2 * Num(half) && Num(plus) == Num(doubled) + 1
    ensures Num(half) == Num(v) / 2
    ensures Odd(v) <==> Num(v) % 2 == 1
  {
    HalfNumber(Num(v), Num(half), Num(doubled), Num(plus), Odd(v));
  }

  lemma HalfOf(v: bv32)
    ensures Num(Down(v)) == Num(v) / 2
    ensures Odd(v) <==> Num(v) % 2 == 1
  {
    Halves(v);
    DownUp(v);
    DoubledPlus(Down(v));
    HalfFrom(v, Down(v), Up(Down(v)), Or(Up(Down(v)), 1));
  }

  // ---------- shifting ----------

  lemma {:induction false} RightDrops(v: bv32, n: nat)
    ensures Num(Right(v, n)) == Drop(Num(v), n)
    decreases n
  {
    if n > 0 {
      HalfOf(v);
      RightDrops(Down(v), n - 1);
    }
  }

  lemma Wrapped(x: nat, y: nat, high: bool)
    requires x < 0x1_0000_0000 && y == if high then 2 * x - 0x1_0000_0000 else 2 * x
    requires y < 0x1_0000_0000
    ensures y == Low(2 * x, 32)
  {
    WordSize();
    LowTop(2 * x, 32);
  }

  lemma DoubledLow(v: bv32)
    ensures Num(Up(v)) == Low(2 * Num(v), 32)
  {
    Doubled(v);
    Bounded(v);
    Bounded(Up(v));
    Wrapped(Num(v), Num(Up(v)), High(v));
  }

  lemma LowOfDouble(x: nat, y: nat, size: nat)
    requires size > 0 && Low(x, size - 1) == Low(y, size - 1)
    ensures Low(2 * x, size) == Low(2 * y, size)
  {
    assert 2 * x / 2 == x && 2 * y / 2 == y;
  }

  lemma ScaledOnce(x: nat, n: nat, before: nat, size: nat)
    requires size > 0 && before == Low(Scale(x, n), size)
    ensures Low(2 * before, size) == Low(Scale(x, n + 1), size)
  {
    LowOfLow(Scale(x, n), size, size - 1);
    LowOfDouble(before, Scale(x, n), size);
  }

  lemma WholeWord(v: bv32)
    ensures Num(v) == Low(Num(v), 32)
  {
    WordSize();
    Bounded(v);
    LowTop(Num(v), 32);
  }

  lemma UpScales(v: bv32, x: nat, n: nat)
    requires Num(v) == Low(Scale(x, n), 32)
    ensures Num(Up(v)) == Low(Scale(x, n + 1), 32)
  {
    DoubledLow(v);
    ScaledOnce(x, n, Num(v), 32);
  }

  lemma {:induction false} LeftScales(v: bv32, n: nat)
    ensures Num(Left(v, n)) == Low(Scale(Num(v), n), 32)
    decreases n
  {
    if n == 0 {
      WholeWord(v);
    } else {
      LeftScales(v, n - 1);
      UpScales(Left(v, n - 1), Num(v), n - 1);
    }
  }

  lemma UpAgain(v: bv32)
    ensures Up(v) == v << 1 && Up(v << 1) == v << 2 && Up(v << 2) == v << 3 && Up(v << 3) == v << 4
    ensures Up(v << 4) == v << 5 && Up(v << 5) == v << 6 && Up(v << 6) == v << 7 && Up(v << 7) == v << 8
  {
  }

  lemma LeftStep(v: bv32, n: nat, before: bv32, after: bv32)
    requires Left(v, n) == before && Up(before) == after
    ensures Left(v, n + 1) == after
  {
  }

  /** The shifts the loops use. */
  lemma LeftIsShift(v: bv32)
    ensures Left(v, 1) == v << 1 && Left(v, 2) == v << 2 && Left(v, 3) == v << 3 && Left(v, 4) == v << 4
    ensures Left(v, 5) == v << 5 && Left(v, 8) == v << 8
  {
    UpAgain(v);
    LeftStep(v, 0, v, v << 1);
    LeftStep(v, 1, v << 1, v << 2);
    LeftStep(v, 2, v << 2, v << 3);
    LeftStep(v, 3, v << 3, v << 4);
    LeftStep(v, 4, v << 4, v << 5);
    LeftStep(v, 5, v << 5, v << 6);
    LeftStep(v, 6, v << 6, v << 7);
    LeftStep(v, 7, v << 7, v << 8);
  }

  lemma DownAgain(v: bv32)
    ensures Down(v) == v >> 1 && Down(v >> 1) == v >> 2 && Down(v >> 2) == v >> 3 && Down(v >> 3) == v >> 4
    ensures Down(v >> 4) == v >> 5 && Down(v >> 5) == v >> 6 && Down(v >> 6) == v >> 7
  {
  }

  lemma {:induction false} RightStep(v: bv32, n: nat)
    ensures Right(v, n + 1) == Down(Right(v, n))
    decreases n
  {
    if n > 0 {
      RightStep(Down(v), n - 1);
    }
  }

  lemma RightNext(v: bv32, n: nat, before: bv32, after: bv32)
    requires Right(v, n) == before && Down(before) == after
    ensures Right(v, n + 1) == after
  {
    RightStep(v, n);
  }

  lemma RightNear(v: bv32)
    ensures Right(v, 1) == v >> 1 && Right(v, 2) == v >> 2 && Right(v, 3) == v >> 3 && Right(v, 4) == v >> 4
  {
    DownAgain(v);
    RightNext(v, 0, v, v >> 1);
    RightNext(v, 1, v >> 1, v >> 2);
    RightNext(v, 2, v >> 2, v >> 3);
    RightNext(v, 3, v >> 3, v >> 4);
  }

  lemma RightFar(v: bv32, four: bv32)
    requires four == v >> 4 && Right(v, 4) == four
    ensures Right(v, 5) == v >> 5 && Right(v, 6) == v >> 6 && Right(v, 7) == v >> 7
  {
    DownAgain(v);
    RightNext(v, 4, four, v >> 5);
    RightNext(v, 5, v >> 5, v >> 6);
    RightNext(v, 6, v >> 6, v >> 7);
  }

  /** A pending word never has more than twelve bits, so its top five or eight are at most seven places up. */
  lemma RightIsShift(v: bv32)
    ensures Right(v, 0) == v && Right(v, 1) == v >> 1 && Right(v, 2) == v >> 2 && Right(v, 3) == v >> 3
    ensures Right(v, 4) == v >> 4 && Right(v, 5) == v >> 5 && Right(v, 6) == v >> 6 && Right(v, 7) == v >> 7
  {
    RightNear(v);
    RightFar(v, v >> 4);
  }

  // ---------- filling in the zeros ----------

  lemma OrHalf(v: bv32, d: bv32)
    ensures Down(Or(v, d)) == Or(Down(v), Down(d))
    ensures Odd(Or(v, d)) == (Odd(v) || Odd(d))
  {
  }

  lemma OrNothing(v: bv32, d: bv32)
    requires Num(d) == 0
    ensures Or(v, d) == v
  {
    ZeroWord(d);
    OrZero(v);
  }

  lemma ZeroWord(d: bv32)
    requires Num(d) == 0
    ensures d == 0
  {
  }

  lemma OrZero(v: bv32)
    ensures Or(v, 0) == v
  {
  }

  /** `|` of a digit on the zeros just shifted in is adding it. */
  lemma {:induction false} OrAdds(v: bv32, d: bv32, n: nat)
    requires Low(Num(v), n) == 0 && Num(d) < Pow2(n)
    ensures Num(Or(v, d)) == Num(v) + Num(d)
    decreases n
  {
    if n == 0 {
      OrNothing(v, d);
    } else {
      HalfOf(v);
      HalfOf(d);
      HalfOf(Or(v, d));
      OrHalf(v, d);
      OrAdds(Down(v), Down(d), n - 1);
    }
  }

  lemma ZerosIn(x: nat, n: nat, size: nat)
    requires n <= size
    ensures Low(Low(Scale(x, n), size), n) == 0
  {
    LowOfLow(Scale(x, n), size, n);
    LowOfScaled(x, 0, n, 0);
    LowOfZero(n);
  }

  lemma RoomFor(x: nat, n: nat, digit: nat, size: nat)
    requires n <= size && digit < Pow2(n)
    ensures Low(Scale(x, n) + digit, size) == Low(Scale(x, n), size) + digit
  {
    LowOfScaled(x, size - n, n, digit);
    LowOfScaled(x, size - n, n, 0);
  }

  /** Shifting left and filling in a digit, kept to 32 bits. */
  lemma FilledIn(v: bv32, n: nat, d: bv32)
    requires n <= 32 && Num(d) < Pow2(n)
    ensures Num(Or(Left(v, n), d)) == Low(Scale(Num(v), n) + Num(d), 32)
  {
    LeftScales(v, n);
    RoomFor(Num(v), n, Num(d), 32);
    ZerosIn(Num(v), n, 32);
    OrAdds(Left(v, n), d, n);
  }

  // ---------- masking ----------

  lemma MaskJoin(v: bv32, mask: bv32)
    ensures And(v, Or(Up(mask), 1)) == Or(Up(And(Down(v), mask)), And(v, 1))
  {
  }

  lemma OneBit(v: bv32)
    ensures And(v, 1) == if Odd(v) then 1 else 0
  {
  }

  lemma MaskedHigh(v: bv32, mask: bv32)
    ensures !High(And(Down(v), mask))
  {
  }

  lemma MaskStep(v: bv32, mask: bv32)
    ensures And(v, Or(Up(mask), 1)) == if Odd(v) then Or(Up(And(Down(v), mask)), 1) else Up(And(Down(v), mask))
    ensures !High(And(Down(v), mask))
  {
    MaskJoin(v, mask);
    OneBit(v);
    OrZero(Up(And(Down(v), mask)));
    MaskedHigh(v, mask);
  }

  lemma {:induction false} MaskedLow(v: bv32, n: nat)
    ensures Num(And(v, Ones(n))) == Low(Num(v), n)
    decreases n
  {
    if n == 0 {
      NoBits(v);
    } else {
      MaskedLow(Down(v), n - 1);
      MaskStep(v, Ones(n - 1));
      HalfOf(v);
      Doubled(And(Down(v), Ones(n - 1)));
      DoubledPlus(And(Down(v), Ones(n - 1)));
    }
  }

  lemma NoBits(v: bv32)
    ensures Num(And(v, 0)) == 0
  {
  }

  lemma SomeOnes()
    ensures Ones(5) == 31 && Ones(8) == 255
  {
    assert Ones(1) == 1;
    assert Ones(2) == 3;
    assert Ones(3) == 7;
    assert Ones(4) == 15;
    assert Ones(5) == 31;
    assert Ones(6) == 63;
    assert Ones(7) == 127;
  }

  lemma Narrowed(v: bv32)
    ensures ((v & 255) as bv8) as int == (v & 255) as int
  {
  }

  lemma Widened(b: bv8)
    ensures (b as bv32) as int == b as int
  {
  }

  lemma WordBack(v: bv32)
    ensures (v as int) as bv32 == v
  {
  }
}
