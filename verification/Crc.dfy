/** A shift register that divides: its algebra, whatever the polynomial. */
module Register {

  /**
   * Registers add without carry; `round` multiplies by x and reduces; `place(k)` is the single bit k
   * places below the top of sixteen.
   */
  datatype Divider<!R> = Divider(plus: (R, R) -> R, zero: R, round: R -> R, place: nat -> R)

  /** The laws, each named so that a proof says where it uses one. */
  ghost predicate Laws<R(!new)>(g: Divider<R>) {
    && (forall a: R {:trigger Neutral(g, a)} :: Neutral(g, a))
    && (forall a: R, b: R, c: R {:trigger Associates(g, a, b, c)} :: Associates(g, a, b, c))
    && (forall a: R, b: R {:trigger Additive(g, a, b)} :: Additive(g, a, b))
    && (forall a: R, b: R {:trigger Tells(g, a, b)} :: Tells(g, a, b))
    && (forall k: nat {:trigger Rises(g, k)} | k < 15 :: Rises(g, k))
  }

  predicate Neutral<R(==)>(g: Divider<R>, a: R) {
    g.plus(a, g.zero) == a && g.plus(g.zero, a) == a && g.plus(a, a) == g.zero
  }

  predicate Additive<R(==)>(g: Divider<R>, a: R, b: R) { g.round(g.plus(a, b)) == g.plus(g.round(a), g.round(b)) }

  predicate Tells<R(==)>(g: Divider<R>, a: R, b: R) { g.round(a) == g.round(b) ==> a == b }

  predicate Associates<R(==)>(g: Divider<R>, a: R, b: R, c: R) {
    g.plus(a, g.plus(b, c)) == g.plus(g.plus(a, b), c)
  }

  predicate Rises<R(==)>(g: Divider<R>, k: nat) { g.round(g.place(k + 1)) == g.place(k) }

  function Rounds<R>(g: Divider<R>, c: R, n: nat): R {
    if n == 0 then c else g.round(Rounds(g, c, n - 1))
  }

  function Unit<R>(g: Divider<R>, bit: bool, k: nat): R { if bit then g.place(k) else g.zero }

  /** Long division: bring down one bit of the dividend at a time. The result is the remainder. */
  function Divide<R>(g: Divider<R>, remainder: R, bits: seq<bool>): R
    decreases |bits|
  {
    if bits == [] then remainder else Divide(g, g.plus(g.round(remainder), Unit(g, bits[0], 15)), bits[1..])
  }

  /** The same register with each bit of the dividend added at the top. */
  function Serial<R>(g: Divider<R>, c: R, bits: seq<bool>): R
    decreases |bits|
  {
    if bits == [] then c else Serial(g, g.round(g.plus(c, Unit(g, bits[0], 0))), bits[1..])
  }

  function Pad(n: nat): seq<bool> { seq(n, _ => false) }

  lemma DivideOnce<R>(g: Divider<R>, c: R, bits: seq<bool>, round: R, unit: R, next: R)
    requires bits != [] && round == g.round(c) && unit == Unit(g, bits[0], 15) && next == g.plus(round, unit)
    ensures Divide(g, c, bits) == Divide(g, next, bits[1..])
  {
  }

  lemma {:induction false} RoundsLinear<R(!new)>(g: Divider<R>, x: R, y: R, n: nat)
    requires Laws(g)
    ensures Rounds(g, g.plus(x, y), n) == g.plus(Rounds(g, x, n), Rounds(g, y, n))
    decreases n
  {
    if n > 0 {
      RoundsLinear(g, x, y, n - 1);
      assert Additive(g, Rounds(g, x, n - 1), Rounds(g, y, n - 1));
    }
  }

  lemma {:induction false} RoundFirst<R(!new)>(g: Divider<R>, c: R, n: nat)
    ensures Rounds(g, g.round(c), n) == g.round(Rounds(g, c, n))
    decreases n
  {
    if n > 0 {
      RoundFirst(g, c, n - 1);
    }
  }

  lemma ZeroStays<R(!new)>(g: Divider<R>)
    requires Laws(g)
    ensures g.round(g.zero) == g.zero
  {
    assert Neutral(g, g.zero) && Additive(g, g.zero, g.zero) && Neutral(g, g.round(g.zero));
  }

  lemma {:induction false} RoundsOfZero<R(!new)>(g: Divider<R>, n: nat)
    requires Laws(g)
    ensures Rounds(g, g.zero, n) == g.zero
    decreases n
  {
    ZeroStays(g);
    if n > 0 {
      RoundsOfZero(g, n - 1);
    }
  }

  /** A bit climbs one place a round until it leaves the top. */
  lemma {:induction false} Climb<R(!new)>(g: Divider<R>, k: nat, n: nat)
    requires Laws(g) && n <= k <= 15
    ensures Rounds(g, g.place(k), n) == g.place(k - n)
    decreases n
  {
    if n > 0 {
      Climb(g, k, n - 1);
      assert Rises(g, k - n);
    }
  }

  /** Adding a bit at the top is adding it at the bottom and dividing sixteen rounds on. */
  lemma SerialStep<R(!new)>(g: Divider<R>, a: R, bit: bool)
    requires Laws(g)
    ensures g.round(g.plus(Rounds(g, a, 16), Unit(g, bit, 0)))
         == Rounds(g, g.plus(g.round(a), Unit(g, bit, 15)), 16)
  {
    RoundFirst(g, a, 16);
    RoundsLinear(g, g.round(a), Unit(g, bit, 15), 16);
    assert Additive(g, Rounds(g, a, 16), Unit(g, bit, 0));
    if bit {
      Climb(g, 15, 15);
    } else {
      RoundsOfZero(g, 16);
      ZeroStays(g);
    }
  }

  lemma {:induction false} SerialIsDivision<R(!new)>(g: Divider<R>, a: R, bits: seq<bool>)
    requires Laws(g)
    ensures Serial(g, Rounds(g, a, 16), bits) == Rounds(g, Divide(g, a, bits), 16)
    decreases |bits|
  {
    if bits != [] {
      SerialStep(g, a, bits[0]);
      SerialIsDivision(g, g.plus(g.round(a), Unit(g, bits[0], 15)), bits[1..]);
    }
  }

  lemma {:induction false} DivideZeros<R(!new)>(g: Divider<R>, a: R, n: nat)
    requires Laws(g)
    ensures Divide(g, a, Pad(n)) == Rounds(g, a, n)
    decreases n
  {
    if n > 0 {
      assert Pad(n)[1..] == Pad(n - 1) && Neutral(g, g.round(a));
      DivideZeros(g, g.round(a), n - 1);
      RoundFirst(g, a, n - 1);
    }
  }

  lemma {:induction false} DivideJoin<R(!new)>(g: Divider<R>, a: R, xs: seq<bool>, ys: seq<bool>)
    ensures Divide(g, a, xs + ys) == Divide(g, Divide(g, a, xs), ys)
    decreases |xs|
  {
    if xs == [] {
      assert xs + ys == ys;
    } else {
      assert (xs + ys)[1..] == xs[1..] + ys;
      DivideJoin(g, g.plus(g.round(a), Unit(g, xs[0], 15)), xs[1..], ys);
    }
  }

  lemma {:induction false} SerialJoin<R(!new)>(g: Divider<R>, c: R, xs: seq<bool>, ys: seq<bool>)
    ensures Serial(g, c, xs + ys) == Serial(g, Serial(g, c, xs), ys)
    decreases |xs|
  {
    if xs == [] {
      assert xs + ys == ys;
    } else {
      assert (xs + ys)[1..] == xs[1..] + ys;
      SerialJoin(g, g.round(g.plus(c, Unit(g, xs[0], 0))), xs[1..], ys);
    }
  }

  /** Started empty, the register ends with the remainder of the message followed by sixteen zeros. */
  lemma SerialIsRemainder<R(!new)>(g: Divider<R>, bits: seq<bool>)
    requires Laws(g)
    ensures Serial(g, g.zero, bits) == Divide(g, g.zero, bits + Pad(16))
  {
    DivideJoin(g, g.zero, bits, Pad(16));
    DivideZeros(g, Divide(g, g.zero, bits), 16);
    RoundsOfZero(g, 16);
    SerialIsDivision(g, g.zero, bits);
  }

  // ---------- several bits at once ----------

  /** Bits lined up downwards from place k. */
  function Lined<R>(g: Divider<R>, bits: seq<bool>, k: nat): R
    decreases |bits|
  {
    if bits == [] then g.zero else g.plus(Unit(g, bits[0], k), Lined(g, bits[1..], k + 1))
  }

  lemma {:induction false} LinedClimbs<R(!new)>(g: Divider<R>, bits: seq<bool>, k: nat)
    requires Laws(g) && k + |bits| <= 15
    ensures g.round(Lined(g, bits, k + 1)) == Lined(g, bits, k)
    decreases |bits|
  {
    ZeroStays(g);
    if bits != [] {
      assert Rises(g, k);
      LinedClimbs(g, bits[1..], k + 1);
      assert Additive(g, Unit(g, bits[0], k + 1), Lined(g, bits[1..], k + 2));
    }
  }

  lemma SerialIsRoundsStep<R(!new)>(g: Divider<R>, c: R, u: R, bits: seq<bool>)
    requires bits != [] && u == Unit(g, bits[0], 0)
    requires var next := g.round(g.plus(c, u));
      Serial(g, next, bits[1..]) == Rounds(g, g.plus(next, Lined(g, bits[1..], 0)), |bits| - 1)
    requires g.plus(g.round(g.plus(c, u)), Lined(g, bits[1..], 0))
          == g.round(g.plus(c, g.plus(u, Lined(g, bits[1..], 1))))
    ensures Serial(g, c, bits) == Rounds(g, g.plus(c, Lined(g, bits, 0)), |bits|)
  {
    RoundFirst(g, g.plus(c, g.plus(u, Lined(g, bits[1..], 1))), |bits| - 1);
  }

  /** Feeding bits one by one is adding them all and dividing that many rounds. */
  lemma {:induction false} SerialIsRounds<R(!new)>(g: Divider<R>, c: R, bits: seq<bool>)
    requires Laws(g) && |bits| <= 15
    ensures Serial(g, c, bits) == Rounds(g, g.plus(c, Lined(g, bits, 0)), |bits|)
    decreases |bits|
  {
    if bits == [] {
      assert Neutral(g, c);
    } else {
      var u := Unit(g, bits[0], 0);
      LinedClimbs(g, bits[1..], 0);
      SerialIsRounds(g, g.round(g.plus(c, u)), bits[1..]);
      Fed(g, c, u, Lined(g, bits[1..], 1));
      SerialIsRoundsStep(g, c, u, bits);
    }
  }

  lemma Fed<R(!new)>(g: Divider<R>, c: R, u: R, tail: R)
    requires Laws(g)
    ensures g.plus(g.round(g.plus(c, u)), g.round(tail)) == g.round(g.plus(c, g.plus(u, tail)))
  {
    PlusMoves(g, c, u, tail);
    assert Additive(g, g.plus(c, u), tail);
  }

  lemma PlusMoves<R(!new)>(g: Divider<R>, a: R, b: R, c: R)
    requires Laws(g)
    ensures g.plus(a, g.plus(b, c)) == g.plus(g.plus(a, b), c)
  {
    assert Associates(g, a, b, c);
  }

  // ---------- injectivity ----------

  lemma PlusInjective<R(!new)>(g: Divider<R>, a: R, b: R, c: R)
    requires Laws(g) && g.plus(a, c) == g.plus(b, c)
    ensures a == b
  {
    assert Neutral(g, a) && Neutral(g, b) && Neutral(g, c);
    PlusMoves(g, a, c, c);
    PlusMoves(g, b, c, c);
  }

  lemma {:induction false} SerialInjective<R(!new)>(g: Divider<R>, c: R, d: R, bits: seq<bool>)
    requires Laws(g) && Serial(g, c, bits) == Serial(g, d, bits)
    ensures c == d
    decreases |bits|
  {
    if bits != [] {
      var u := Unit(g, bits[0], 0);
      SerialInjective(g, g.round(g.plus(c, u)), g.round(g.plus(d, u)), bits[1..]);
      assert Tells(g, g.plus(c, u), g.plus(d, u));
      PlusInjective(g, c, d, u);
    }
  }

  lemma {:induction false} RoundsInjective<R(!new)>(g: Divider<R>, c: R, d: R, n: nat)
    requires Laws(g) && Rounds(g, c, n) == Rounds(g, d, n)
    ensures c == d
    decreases n
  {
    if n > 0 {
      assert Tells(g, Rounds(g, c, n - 1), Rounds(g, d, n - 1));
      RoundsInjective(g, c, d, n - 1);
    }
  }

  /** Different bits fed to the same register leave it different, if they differ once lined up. */
  lemma SerialTells<R(!new)>(g: Divider<R>, c: R, xs: seq<bool>, ys: seq<bool>)
    requires Laws(g) && |xs| == |ys| <= 15 && Serial(g, c, xs) == Serial(g, c, ys)
    ensures Lined(g, xs, 0) == Lined(g, ys, 0)
  {
    var x, y := Lined(g, xs, 0), Lined(g, ys, 0);
    SerialIsRounds(g, c, xs);
    SerialIsRounds(g, c, ys);
    RoundsInjective(g, g.plus(c, x), g.plus(c, y), |xs|);
    PlusMoves(g, c, c, x);
    PlusMoves(g, c, c, y);
    assert Neutral(g, c) && Neutral(g, x) && Neutral(g, y);
  }
}

/** Division of bit strings by hand, without carries. */
module LongDivision {

  /** x^16 + x^12 + x^5 + 1, highest power first. */
  const DIVISOR: seq<bool> :=
    [ true, false, false, false, true, false, false, false, false, false, false, true, false, false, false, false,
      true ]

  function XorBits(xs: seq<bool>, ys: seq<bool>): (r: seq<bool>)
    requires |xs| == |ys|
  {
    seq(|xs|, i requires 0 <= i < |xs| => xs[i] != ys[i])
  }

  /** While more than sixteen bits are left, strike the first: a one takes the divisor away from where it stands. */
  function Remainder(bits: seq<bool>): (r: seq<bool>)
    decreases |bits|
  {
    if |bits| <= 16 then bits
    else if bits[0] then Remainder(XorBits(bits[1..17], DIVISOR[1..]) + bits[17..])
    else Remainder(bits[1..])
  }

  lemma RemainderStep(first: bool, low: seq<bool>, rest: seq<bool>)
    requires |low| == 16
    ensures Remainder([first] + low + rest)
         == Remainder((if first then XorBits(low, DIVISOR[1..]) else low) + rest)
  {
    var bits := [first] + low + rest;
    assert bits[1..17] == low && bits[17..] == rest && bits[1..] == low + rest;
  }

  lemma {:induction false} LeadingZeros(n: nat, bits: seq<bool>)
    requires |bits| >= 16
    ensures Remainder(seq(n, _ => false) + bits) == Remainder(bits)
    decreases n
  {
    var zeros := seq(n, _ => false);
    if n == 0 {
      assert zeros + bits == bits;
    } else {
      assert (zeros + bits)[1..] == seq(n - 1, _ => false) + bits;
      LeadingZeros(n - 1, bits);
    }
  }
}

/** CRC-16/XMODEM: the table-driven loop against division of the message's bits. */
module Crc {
  import opened Register
  import opened LongDivision

  /** Multiplies by x and reduces by x^16 + x^12 + x^5 + 1. */
  function Round(c: bv16): bv16 {
    if c & 0x8000 != 0 then (c << 1) ^ 0x1021 else c << 1
  }

  function Place(k: nat): bv16 {
    if k == 0 then 0x8000 else if k == 1 then 0x4000 else if k == 2 then 0x2000 else if k == 3 then 0x1000
    else if k == 4 then 0x800 else if k == 5 then 0x400 else if k == 6 then 0x200 else if k == 7 then 0x100
    else if k == 8 then 0x80 else if k == 9 then 0x40 else if k == 10 then 0x20 else if k == 11 then 0x10
    else if k == 12 then 8 else if k == 13 then 4 else if k == 14 then 2 else 1
  }

  function Plus(a: bv16, b: bv16): bv16 { a ^ b }

  const XMODEM: Divider<bv16> := Divider(Plus, 0, Round, Place)

  /** The eight bits of a byte, most significant first. */
  function ByteBits(b: bv8): (r: seq<bool>)
    ensures |r| == 8
  {
    [b & 128 != 0, b & 64 != 0, b & 32 != 0, b & 16 != 0, b & 8 != 0, b & 4 != 0, b & 2 != 0, b & 1 != 0]
  }

  function Bits(bytes: seq<bv8>): (r: seq<bool>)
    ensures |r| == 8 * |bytes|
  {
    if bytes == [] then [] else ByteBits(bytes[0]) + Bits(bytes[1..])
  }

  /** The checksum's definition: the remainder of the message's bits followed by sixteen zeros. */
  function Checksum(bytes: seq<bv8>): bv16 { Divide(XMODEM, 0, Bits(bytes) + Pad(16)) }

  // ---------- the polynomial obeys the laws ----------

  lemma ShiftXor(x: bv16, y: bv16)
    ensures (x ^ y) << 1 == (x << 1) ^ (y << 1)
    ensures (x ^ y) & 0x8000 == (x & 0x8000) ^ (y & 0x8000)
    ensures x & 0x8000 == 0 || x & 0x8000 == 0x8000
  {
  }

  lemma ReduceLeft(a: bv16, b: bv16)
    ensures (a ^ b) ^ 0x1021 == (a ^ 0x1021) ^ b
  {
  }

  lemma ReduceRight(a: bv16, b: bv16)
    ensures (a ^ b) ^ 0x1021 == a ^ (b ^ 0x1021)
  {
  }

  lemma ReduceBoth(a: bv16, b: bv16)
    ensures a ^ b == (a ^ 0x1021) ^ (b ^ 0x1021)
  {
  }

  lemma PlusAssociates(a: bv16, b: bv16, c: bv16)
    ensures Plus(a, Plus(b, c)) == Plus(Plus(a, b), c)
  {
  }

  lemma XorNeutral(a: bv16)
    ensures a ^ 0 == a && 0 ^ a == a && a ^ a == 0
  {
  }

  lemma XorZero(x: bv16, y: bv16)
    ensures x ^ y == 0 <==> x == y
  {
  }

  lemma NoZeroRound(z: bv16)
    requires Round(z) == 0
    ensures z == 0
  {
    if z & 0x8000 == 0 {
      assert z << 1 == 0;
    }
  }

  lemma RoundAdditive(x: bv16, y: bv16)
    ensures Round(x ^ y) == Round(x) ^ Round(y)
  {
    ShiftXor(x, y);
    ShiftXor(y, x);
    ReduceLeft(x << 1, y << 1);
    ReduceRight(x << 1, y << 1);
    ReduceBoth(x << 1, y << 1);
  }

  /** No two registers round to the same one: the polynomial has a constant term. */
  lemma RoundTells(x: bv16, y: bv16)
    requires Round(x) == Round(y)
    ensures x == y
  {
    RoundAdditive(x, y);
    XorZero(Round(x), Round(y));
    NoZeroRound(x ^ y);
    XorZero(x, y);
  }

  lemma PlaceRises(k: nat)
    requires k < 15
    ensures Round(Place(k + 1)) == Place(k)
  {
  }

  lemma NeutralAt(a: bv16)
    ensures Neutral(XMODEM, a)
  {
    XorNeutral(a);
  }

  lemma PlusAt(a: bv16, b: bv16, sum: bv16)
    requires sum == a ^ b
    ensures XMODEM.plus(a, b) == sum
  {
  }

  lemma AssociatesAt(a: bv16, b: bv16, c: bv16, ab: bv16, bc: bv16, sum: bv16)
    requires ab == Plus(a, b) && bc == Plus(b, c) && sum == Plus(ab, c) && sum == Plus(a, bc)
    ensures Associates(XMODEM, a, b, c)
  {
  }

  lemma RoundAt(a: bv16, r: bv16)
    requires r == Round(a)
    ensures XMODEM.round(a) == r
  {
  }

  lemma AdditiveSums(a: bv16, b: bv16, ab: bv16, ra: bv16, rb: bv16)
    requires XMODEM.plus(a, b) == ab && XMODEM.round(a) == ra && XMODEM.round(b) == rb
    requires XMODEM.round(ab) == XMODEM.plus(ra, rb)
    ensures Additive(XMODEM, a, b)
  {
  }

  lemma AdditiveFrom(a: bv16, b: bv16, ab: bv16, ra: bv16, rb: bv16, rab: bv16)
    requires XMODEM.plus(a, b) == ab && XMODEM.plus(ra, rb) == rab
    requires XMODEM.round(a) == ra && XMODEM.round(b) == rb && XMODEM.round(ab) == rab
    ensures Additive(XMODEM, a, b)
  {
    AdditiveSums(a, b, ab, ra, rb);
  }

  lemma RoundedSum(a: bv16, b: bv16, ab: bv16, ra: bv16, rb: bv16, rab: bv16)
    requires ab == a ^ b && rab == ra ^ rb
    requires XMODEM.round(a) == ra && XMODEM.round(b) == rb && XMODEM.round(ab) == rab
    ensures Additive(XMODEM, a, b)
  {
    PlusAt(a, b, ab);
    PlusAt(ra, rb, rab);
    AdditiveFrom(a, b, ab, ra, rb, rab);
  }

  lemma RoundsAt(a: bv16, b: bv16, ab: bv16, ra: bv16, rb: bv16, rab: bv16)
    requires ra == Round(a) && rb == Round(b) && rab == Round(ab)
    ensures XMODEM.round(a) == ra && XMODEM.round(b) == rb && XMODEM.round(ab) == rab
  {
    RoundAt(a, ra);
    RoundAt(b, rb);
    RoundAt(ab, rab);
  }

  lemma AdditiveOf(a: bv16, b: bv16, ab: bv16, ra: bv16, rb: bv16, rab: bv16)
    requires ab == a ^ b && rab == ra ^ rb
    requires ra == Round(a) && rb == Round(b) && rab == Round(ab)
    ensures Additive(XMODEM, a, b)
  {
    RoundsAt(a, b, ab, ra, rb, rab);
    RoundedSum(a, b, ab, ra, rb, rab);
  }

  lemma AdditiveAt(a: bv16, b: bv16)
    ensures Additive(XMODEM, a, b)
  {
    RoundAdditive(a, b);
    AdditiveOf(a, b, a ^ b, Round(a), Round(b), Round(a ^ b));
  }

  lemma XmodemNeutral()
    ensures forall a: bv16 {:trigger Neutral(XMODEM, a)} :: Neutral(XMODEM, a)
  {
    forall a: bv16 { NeutralAt(a); }
  }

  lemma XmodemAssociates()
    ensures forall a: bv16, b: bv16, c: bv16 {:trigger Associates(XMODEM, a, b, c)} :: Associates(XMODEM, a, b, c)
  {
    forall a: bv16, b: bv16, c: bv16 ensures Associates(XMODEM, a, b, c) {
      PlusAssociates(a, b, c);
      AssociatesAt(a, b, c, Plus(a, b), Plus(b, c), Plus(Plus(a, b), c));
    }
  }

  lemma XmodemRounds()
    ensures forall a: bv16, b: bv16 {:trigger Additive(XMODEM, a, b)} :: Additive(XMODEM, a, b)
  {
    forall a: bv16, b: bv16 { AdditiveAt(a, b); }
  }

  lemma XmodemTells()
    ensures forall a: bv16, b: bv16 {:trigger Tells(XMODEM, a, b)} :: Tells(XMODEM, a, b)
  {
    forall a: bv16, b: bv16 ensures Tells(XMODEM, a, b) {
      if Round(a) == Round(b) {
        RoundTells(a, b);
      }
    }
  }

  lemma XmodemRises()
    ensures forall k: nat {:trigger Rises(XMODEM, k)} | k < 15 :: Rises(XMODEM, k)
  {
    forall k: nat | k < 15 ensures Rises(XMODEM, k) { PlaceRises(k); }
  }

  lemma XmodemLaws()
    ensures Laws(XMODEM)
  {
    XmodemNeutral();
    XmodemAssociates();
    XmodemRounds();
    XmodemTells();
    XmodemRises();
  }

  // ---------- a byte at a time ----------

  function Flag(bit: bool, k: nat): bv16 { if bit then Place(k) else 0 }

  /** The byte's low bits from bit j down. */
  function Below(b: bv8, j: nat): bv8 {
    if j == 0 then b else if j == 1 then b & 127 else if j == 2 then b & 63 else if j == 3 then b & 31
    else if j == 4 then b & 15 else if j == 5 then b & 7 else if j == 6 then b & 3 else if j == 7 then b & 1 else 0
  }

  function High(b: bv8): bv16 { (b as bv16) << 8 }

  lemma PeelBit(b: bv8, j: nat, bit: bool)
    requires j < 8 && bit == ByteBits(b)[j]
    ensures Flag(bit, j) ^ High(Below(b, j + 1)) == High(Below(b, j))
  {
  }

  lemma LinedStep(bits: seq<bool>, k: nat)
    requires bits != []
    ensures Lined(XMODEM, bits, k) == Flag(bits[0], k) ^ Lined(XMODEM, bits[1..], k + 1)
  {
  }

  lemma {:induction false} LinedFrom(b: bv8, bits: seq<bool>, j: nat)
    requires j <= 8 && bits == ByteBits(b)[j..]
    ensures Lined(XMODEM, bits, j) == High(Below(b, j))
    decreases 8 - j
  {
    if j < 8 {
      LinedStep(bits, j);
      LinedFrom(b, bits[1..], j + 1);
      PeelBit(b, j, bits[0]);
    }
  }

  lemma LinedByte(b: bv8)
    ensures Lined(XMODEM, ByteBits(b), 0) == (b as bv16) << 8
  {
    assert ByteBits(b)[0..] == ByteBits(b);
    LinedFrom(b, ByteBits(b), 0);
  }

  /** Feeding a byte's bits is the eight rounds the table is built from. */
  lemma ByteStep(c: bv16, b: bv8)
    ensures Serial(XMODEM, c, ByteBits(b)) == Rounds(XMODEM, Plus(c, High(b)), 8)
  {
    XmodemLaws();
    SerialIsRounds(XMODEM, c, ByteBits(b));
    LinedByte(b);
  }

  /** The byte leaving the register, met with the byte coming in: the index into the table. */
  function Index(c: bv16, b: bv8): bv16 { ((c >> 8) ^ (b as bv16)) & 0xff }

  function Lift(c: bv16): bv16 { c << 8 }

  function LowByte(c: bv16): bv16 { c & 0xff }

  lemma SplitRegister(c: bv16, b: bv8)
    ensures Plus(c, High(b)) == Plus(LowByte(c), Lift(Index(c, b)))
  {
  }

  lemma LiftDropsTop(c: bv16)
    ensures Lift(c) == Lift(LowByte(c)) && LowByte(c) < 256
  {
  }

  lemma LowByteRounds(c: bv16)
    requires c < 256
    ensures Round(Round(Round(Round(Round(Round(Round(Round(c)))))))) == c << 8
  {
    assert Round(c) == c << 1;
    assert Round(c << 1) == c << 2;
    assert Round(c << 2) == c << 3;
    assert Round(c << 3) == c << 4;
    assert Round(c << 4) == c << 5;
    assert Round(c << 5) == c << 6;
    assert Round(c << 6) == c << 7;
    assert Round(c << 7) == c << 8;
  }

  lemma EightRounds(c: bv16)
    ensures Rounds(XMODEM, c, 8) == Round(Round(Round(Round(Round(Round(Round(Round(c))))))))
  {
    assert Rounds(XMODEM, c, 1) == Round(c);
    assert Rounds(XMODEM, c, 2) == Round(Rounds(XMODEM, c, 1));
    assert Rounds(XMODEM, c, 3) == Round(Rounds(XMODEM, c, 2));
    assert Rounds(XMODEM, c, 4) == Round(Rounds(XMODEM, c, 3));
    assert Rounds(XMODEM, c, 5) == Round(Rounds(XMODEM, c, 4));
    assert Rounds(XMODEM, c, 6) == Round(Rounds(XMODEM, c, 5));
    assert Rounds(XMODEM, c, 7) == Round(Rounds(XMODEM, c, 6));
  }

  lemma LowByteMoves(c: bv16)
    ensures Rounds(XMODEM, LowByte(c), 8) == Lift(c)
  {
    LiftDropsTop(c);
    EightRounds(LowByte(c));
    LowByteRounds(LowByte(c));
  }

  lemma SumOfRounds(low: bv16, high: bv16)
    ensures Rounds(XMODEM, Plus(low, high), 8) == Plus(Rounds(XMODEM, low, 8), Rounds(XMODEM, high, 8))
  {
    XmodemLaws();
    RoundsLinear(XMODEM, low, high, 8);
  }

  /** What one pass of the checksum loop does to the register: it takes in the byte's eight bits. */
  lemma SerialByte(c: bv16, b: bv8)
    ensures Serial(XMODEM, c, ByteBits(b)) == Plus(Lift(c), Rounds(XMODEM, Lift(Index(c, b)), 8))
  {
    ByteStep(c, b);
    SplitRegister(c, b);
    SumOfRounds(LowByte(c), Lift(Index(c, b)));
    LowByteMoves(c);
  }

  lemma {:induction false} BitsJoin(xs: seq<bv8>, ys: seq<bv8>)
    ensures Bits(xs + ys) == Bits(xs) + Bits(ys)
    decreases |xs|
  {
    if xs == [] {
      assert xs + ys == ys;
    } else {
      assert (xs + ys)[1..] == xs[1..] + ys;
      BitsJoin(xs[1..], ys);
    }
  }

  // ---------- the loops ----------
  // The source masks every value of `crc` to sixteen bits, so the register is a bv16 and a left shift
  // drops the bits the mask drops.

  ghost predicate IsTable(table: seq<bv16>) {
    |table| == 256 && forall i | 0 <= i < 256 :: table[i] == Rounds(XMODEM, Lift(i as bv16), 8)
  }

  lemma IndexFits(c: bv16, b: bv8)
    ensures Index(c, b) < 256
  {
  }

  lemma ByteIndex(i: bv16)
    requires i < 256
    ensures i as int < 256 && (i as int) as bv16 == i
  {
  }

  method BuildTable() returns (table: array<bv16>)
    ensures fresh(table) && IsTable(table[..])
    ensures forall i: nat | i < 256 ::
      WordBits(table[i]) == Remainder(ByteBits(i as bv8) + seq(16, _ => false))
  {
    table := new bv16[256];
    for index := 0 to 256
      invariant forall i | 0 <= i < index :: table[i] == Rounds(XMODEM, Lift(i as bv16), 8)
    {
      var crc := Lift(index as bv16);
      for bit := 0 to 8
        invariant crc == Rounds(XMODEM, Lift(index as bv16), bit)
      {
        crc := Round(crc);
      }
      table[index] := crc;
    }
    forall i: nat | i < 256 ensures WordBits(table[i]) == Remainder(ByteBits(i as bv8) + seq(16, _ => false)) {
      TableByHand(table[..], i);
    }
  }

  /** The bytes followed by their checksum, low byte first. */
  function Checked(raw: seq<bv8>): (r: seq<bv8>)
    ensures |r| == |raw| + 2
  {
    raw + [(Checksum(raw) & 0xff) as bv8, ((Checksum(raw) >> 8) & 0xff) as bv8]
  }

  lemma TakeByte(raw: seq<bv8>, i: nat, c: bv16)
    requires i < |raw| && c == Serial(XMODEM, 0, Bits(raw[..i]))
    ensures Serial(XMODEM, 0, Bits(raw[..i + 1])) == Plus(Lift(c), Rounds(XMODEM, Lift(Index(c, raw[i])), 8))
  {
    assert raw[..i + 1] == raw[..i] + [raw[i]];
    BitsJoin(raw[..i], [raw[i]]);
    assert Bits([raw[i]]) == ByteBits(raw[i]);
    SerialJoin(XMODEM, 0, Bits(raw[..i]), ByteBits(raw[i]));
    SerialByte(c, raw[i]);
  }

  lemma TableAt(table: seq<bv16>, c: bv16, b: bv8)
    requires IsTable(table)
    ensures Index(c, b) as int < 256 && table[Index(c, b) as int] == Rounds(XMODEM, Lift(Index(c, b)), 8)
  {
    IndexFits(c, b);
    ByteIndex(Index(c, b));
  }

  // ---------- the same checksum by hand ----------

  predicate Top(c: bv16) { c & 0x8000 != 0 }

  function Doubled(c: bv16): bv16 { c << 1 }

  predicate BitAt(c: bv16, k: nat)
    decreases k
  {
    if k == 0 then Top(c) else BitAt(Doubled(c), k - 1)
  }

  /** A register's sixteen bits, most significant first. */
  function WordBits(c: bv16): (r: seq<bool>)
    ensures |r| == 16
  {
    seq(16, k requires 0 <= k => BitAt(c, k))
  }

  lemma TopOfSum(a: bv16, b: bv16, sum: bv16)
    requires sum == Plus(a, b)
    ensures Top(sum) == (Top(a) != Top(b))
    ensures Doubled(sum) == Plus(Doubled(a), Doubled(b))
  {
  }

  lemma BitStep(c: bv16, d: bv16, k: nat)
    requires k > 0 && d == Doubled(c)
    ensures BitAt(c, k) == BitAt(d, k - 1)
  {
  }

  lemma {:induction false} BitOfSum(a: bv16, b: bv16, sum: bv16, k: nat)
    requires sum == Plus(a, b)
    ensures BitAt(sum, k) == (BitAt(a, k) != BitAt(b, k))
    decreases k
  {
    TopOfSum(a, b, sum);
    if k > 0 {
      NextBitOfSum(a, b, sum, Doubled(a), Doubled(b), Doubled(sum), k);
    }
  }

  lemma {:induction false} NextBitOfSum(a: bv16, b: bv16, sum: bv16, a2: bv16, b2: bv16, sum2: bv16, k: nat)
    requires k > 0 && a2 == Doubled(a) && b2 == Doubled(b) && sum2 == Doubled(sum) && sum2 == Plus(a2, b2)
    ensures BitAt(sum, k) == (BitAt(a, k) != BitAt(b, k))
    decreases k, 0
  {
    BitOfSum(a2, b2, sum2, k - 1);
    BitStep(a, a2, k);
    BitStep(b, b2, k);
    BitStep(sum, sum2, k);
  }

  lemma SumBits(a: bv16, b: bv16, sum: bv16)
    requires sum == Plus(a, b)
    ensures WordBits(sum) == XorBits(WordBits(a), WordBits(b))
  {
    forall k | 0 <= k < 16 ensures WordBits(sum)[k] == XorBits(WordBits(a), WordBits(b))[k] {
      BitOfSum(a, b, sum, k);
    }
  }

  lemma FirstBits(c: bv16)
    ensures BitAt(c, 0) <==> c & 0x8000 != 0
    ensures BitAt(c, 1) <==> c & 0x4000 != 0
    ensures BitAt(c, 2) <==> c & 0x2000 != 0
    ensures BitAt(c, 3) <==> c & 0x1000 != 0
  {
  }

  lemma NextBits(c: bv16)
    ensures BitAt(c, 4) <==> c & 0x800 != 0
    ensures BitAt(c, 5) <==> c & 0x400 != 0
    ensures BitAt(c, 6) <==> c & 0x200 != 0
    ensures BitAt(c, 7) <==> c & 0x100 != 0
  {
  }

  lemma FourOn(c: bv16, d: bv16, k: nat)
    requires d == c << 4
    ensures BitAt(c, k + 4) == BitAt(d, k)
  {
    BitStep(c, c << 1, k + 4);
    BitStep(c << 1, c << 2, k + 3);
    BitStep(c << 2, c << 3, k + 2);
    BitStep(c << 3, d, k + 1);
  }

  lemma EightOn(c: bv16, d: bv16, k: nat)
    requires d == c << 8
    ensures BitAt(c, k + 8) == BitAt(d, k)
  {
    FourOn(c, c << 4, k + 4);
    FourOn(c << 4, d, k);
  }

  lemma PolynomialBits()
    ensures WordBits(0x1021) == DIVISOR[1..]
  {
    FirstBits(0x1021);
    NextBits(0x1021);
    FirstBits(0x2100);
    NextBits(0x2100);
    forall k | 0 <= k < 8 ensures BitAt(0x1021, k + 8) == BitAt(0x2100, k) { EightOn(0x1021, 0x2100, k); }
    forall k | 0 <= k < 16 ensures WordBits(0x1021)[k] == DIVISOR[1..][k] {
      assert WordBits(0x1021)[k] == if k < 8 then BitAt(0x1021, k) else BitAt(0x2100, k - 8);
    }
  }

  /** The sixteen bits after the first is struck and the next brought down. */
  predicate Follows(word: seq<bool>, bit: bool, next: seq<bool>)
    requires |word| == 16
  {
    next == if word[0] then XorBits(word[1..] + [bit], DIVISOR[1..]) else word[1..] + [bit]
  }

  function LowFlag(bit: bool): bv16 { if bit then 1 else 0 }

  lemma {:induction false} BitOfZero(k: nat)
    ensures !BitAt(0, k)
    decreases k
  {
    if k > 0 {
      BitOfZero(k - 1);
    }
  }

  lemma OneBits()
    ensures WordBits(1) == seq(15, _ => false) + [true]
  {
    FirstBits(1);
    NextBits(1);
    FirstBits(0x100);
    NextBits(0x100);
    forall k | 0 <= k < 8 ensures BitAt(1, k + 8) == BitAt(0x100, k) { EightOn(1, 0x100, k); }
    forall k | 0 <= k < 16 ensures WordBits(1)[k] == (k == 15) {
      assert WordBits(1)[k] == if k < 8 then BitAt(1, k) else BitAt(0x100, k - 8);
    }
  }

  lemma FlagAt(bit: bool, flag: bv16, k: nat)
    requires k < 16 && flag == LowFlag(bit)
    ensures BitAt(flag, k) == (bit && k == 15)
  {
    if bit {
      OneBits();
      assert BitAt(1, k) == WordBits(1)[k];
    } else {
      BitOfZero(k);
    }
  }

  lemma ShiftedLast(c: bv16, d: bv16)
    requires d == Doubled(c)
    ensures !BitAt(d, 15)
  {
    EightOn(d, d << 8, 7);
    NextBits(d << 8);
  }

  /** The register shifted, with the next bit of the dividend brought down. */
  lemma BroughtDown(c: bv16, bit: bool, d: bv16, flag: bv16, taken: bv16)
    requires d == Doubled(c) && flag == LowFlag(bit) && taken == Plus(d, flag)
    ensures WordBits(taken) == WordBits(c)[1..] + [bit]
  {
    ShiftedLast(c, d);
    forall k | 0 <= k < 16 ensures WordBits(taken)[k] == (WordBits(c)[1..] + [bit])[k] {
      BitOfSum(d, flag, taken, k);
      FlagAt(bit, flag, k);
      if k < 15 {
        BitStep(c, d, k + 1);
      }
    }
  }

  lemma SwapFlag(c: bv16, flag: bv16)
    ensures Plus(Plus(c, 0x1021), flag) == Plus(Plus(c, flag), 0x1021)
  {
  }

  /** A round and the bit brought down, in the sum's own terms. */
  lemma NextByHand(c: bv16, bit: bool, d: bv16, flag: bv16, taken: bv16, next: bv16)
    requires d == Doubled(c) && flag == LowFlag(bit) && taken == Plus(d, flag)
    requires next == if Top(c) then Plus(taken, 0x1021) else taken
    ensures Follows(WordBits(c), bit, WordBits(next))
  {
    BroughtDown(c, bit, d, flag, taken);
    assert WordBits(c)[0] == Top(c);
    if Top(c) {
      SumBits(taken, 0x1021, next);
      PolynomialBits();
    }
  }

  lemma RoundParts(c: bv16, round: bv16, d: bv16)
    requires round == Round(c) && d == Doubled(c)
    ensures round == if Top(c) then Plus(d, 0x1021) else d
  {
  }

  lemma TakenParts(top: bool, d: bv16, flag: bv16, round: bv16, taken: bv16, next: bv16)
    requires round == (if top then Plus(d, 0x1021) else d) && taken == Plus(d, flag) && next == Plus(round, flag)
    ensures next == if top then Plus(taken, 0x1021) else taken
  {
    SwapFlag(d, flag);
  }

  lemma RoundTaken(c: bv16, bit: bool, round: bv16, flag: bv16, next: bv16)
    requires round == Round(c) && flag == LowFlag(bit) && next == Plus(round, flag)
    ensures Follows(WordBits(c), bit, WordBits(next))
  {
    var d := Doubled(c);
    RoundParts(c, round, d);
    TakenParts(Top(c), d, flag, round, Plus(d, flag), next);
    NextByHand(c, bit, d, flag, Plus(d, flag), next);
  }

  /** One step of the dividing register is one step of the division by hand. */
  lemma DivideStep(word: seq<bool>, bit: bool, rest: seq<bool>, next: seq<bool>)
    requires |word| == 16 && Follows(word, bit, next)
    ensures Remainder(word + ([bit] + rest)) == Remainder(next + rest)
  {
    assert word + ([bit] + rest) == [word[0]] + (word[1..] + [bit]) + rest;
    RemainderStep(word[0], word[1..] + [bit], rest);
  }

  lemma LowUnit(bit: bool)
    ensures Unit(XMODEM, bit, 15) == LowFlag(bit)
  {
  }

  lemma DivideUnfold(c: bv16, bits: seq<bool>, round: bv16, unit: bv16, next: bv16)
    requires bits != [] && XMODEM.round(c) == round && Unit(XMODEM, bits[0], 15) == unit
    requires XMODEM.plus(round, unit) == next
    ensures Divide(XMODEM, c, bits) == Divide(XMODEM, next, bits[1..])
  {
    DivideOnce(XMODEM, c, bits, round, unit, next);
  }

  lemma NextRegister(c: bv16, bits: seq<bool>) returns (round: bv16, flag: bv16, next: bv16)
    requires bits != []
    ensures round == Round(c) && flag == LowFlag(bits[0]) && next == round ^ flag
    ensures Divide(XMODEM, c, bits) == Divide(XMODEM, next, bits[1..])
  {
    round, flag := Round(c), LowFlag(bits[0]);
    next := round ^ flag;
    RoundAt(c, round);
    LowUnit(bits[0]);
    PlusAt(round, flag, next);
    DivideUnfold(c, bits, round, flag, next);
  }

  lemma AsPlus(a: bv16, b: bv16, sum: bv16)
    requires sum == a ^ b
    ensures sum == Plus(a, b)
  {
  }

  lemma StepByHand(word: seq<bool>, bits: seq<bool>, after: seq<bool>)
    requires bits != [] && |word| == 16 && Follows(word, bits[0], after)
    ensures Remainder(word + bits) == Remainder(after + bits[1..])
  {
    assert bits == [bits[0]] + bits[1..];
    DivideStep(word, bits[0], bits[1..], after);
  }

  lemma BothStep(c: bv16, bits: seq<bool>) returns (next: bv16)
    requires bits != []
    ensures Divide(XMODEM, c, bits) == Divide(XMODEM, next, bits[1..])
    ensures Remainder(WordBits(c) + bits) == Remainder(WordBits(next) + bits[1..])
  {
    var round, flag: bv16;
    round, flag, next := NextRegister(c, bits);
    AsPlus(round, flag, next);
    RoundTaken(c, bits[0], round, flag, next);
    StepByHand(WordBits(c), bits, WordBits(next));
  }

  lemma {:induction false} DivideIsRemainder(c: bv16, bits: seq<bool>)
    ensures Remainder(WordBits(c) + bits) == WordBits(Divide(XMODEM, c, bits))
    decreases |bits|
  {
    if bits == [] {
      assert WordBits(c) + bits == WordBits(c);
    } else {
      var next := BothStep(c, bits);
      DivideIsRemainder(next, bits[1..]);
    }
  }

  lemma ZeroBits()
    ensures WordBits(0) == seq(16, _ => false)
  {
    forall k | 0 <= k < 16 ensures !BitAt(0, k) { BitOfZero(k); }
  }

  /** The checksum is what division of the message and sixteen zeros by the divisor leaves. */
  lemma ChecksumByHand(bytes: seq<bv8>)
    ensures WordBits(Checksum(bytes)) == Remainder(Bits(bytes) + seq(16, _ => false))
  {
    var zeros := seq(16, _ => false);
    DivideIsRemainder(0, Bits(bytes) + Pad(16));
    ZeroBits();
    assert Pad(16) == zeros;
    LeadingZeros(16, Bits(bytes) + zeros);
  }

  lemma HighFromZero(b: bv8)
    ensures Plus(0, High(b)) == Lift(b as bv16)
  {
  }

  /** The table's entry for a byte is what division of the byte and sixteen zeros leaves. */
  lemma EntryByHand(b: bv8)
    ensures WordBits(Rounds(XMODEM, Lift(b as bv16), 8)) == Remainder(ByteBits(b) + seq(16, _ => false))
  {
    ByteStep(0, b);
    HighFromZero(b);
    assert Bits([b]) == ByteBits(b);
    SerialIsChecksum([b]);
    ChecksumByHand([b]);
  }

  lemma WidenedByte(i: nat)
    requires i < 256
    ensures (i as bv8) as bv16 == i as bv16
  {
  }

  lemma TableByHand(table: seq<bv16>, i: nat)
    requires IsTable(table) && i < 256
    ensures WordBits(table[i]) == Remainder(ByteBits(i as bv8) + seq(16, _ => false))
  {
    WidenedByte(i);
    EntryByHand(i as bv8);
  }

  lemma HighFacts(c: bv16, hi: bv8)
    requires hi == ((c >> 8) & 0xff) as bv8
    ensures (hi & 128 != 0 <==> c & 0x8000 != 0) && (hi & 64 != 0 <==> c & 0x4000 != 0)
    ensures (hi & 32 != 0 <==> c & 0x2000 != 0) && (hi & 16 != 0 <==> c & 0x1000 != 0)
    ensures (hi & 8 != 0 <==> c & 0x800 != 0) && (hi & 4 != 0 <==> c & 0x400 != 0)
    ensures (hi & 2 != 0 <==> c & 0x200 != 0) && (hi & 1 != 0 <==> c & 0x100 != 0)
  {
  }

  lemma HighBits(c: bv16, hi: bv8)
    requires hi == ((c >> 8) & 0xff) as bv8
    ensures ByteBits(hi) == WordBits(c)[..8]
  {
    HighFacts(c, hi);
    FirstBits(c);
    NextBits(c);
  }

  lemma LowIsHigh(c: bv16, d: bv16, lo: bv8)
    requires d == c << 8 && lo == (c & 0xff) as bv8
    ensures lo == ((d >> 8) & 0xff) as bv8
  {
  }

  lemma BytesOfWord(c: bv16, hi: bv8, lo: bv8)
    requires hi == ((c >> 8) & 0xff) as bv8 && lo == (c & 0xff) as bv8
    ensures ByteBits(hi) + ByteBits(lo) == WordBits(c)
  {
    HighBits(c, hi);
    LowBits(c, c << 8, lo);
    assert WordBits(c) == WordBits(c)[..8] + WordBits(c)[8..];
  }

  lemma LowBits(c: bv16, d: bv16, lo: bv8)
    requires d == c << 8 && lo == (c & 0xff) as bv8
    ensures ByteBits(lo) == WordBits(c)[8..]
  {
    LowIsHigh(c, d, lo);
    HighBits(d, lo);
    forall k | 0 <= k < 8 ensures WordBits(d)[k] == WordBits(c)[k + 8] { EightOn(c, d, k); }
    assert WordBits(d)[..8] == WordBits(c)[8..];
  }

  lemma CheckedByHand(raw: seq<bv8>)
    ensures Checked(raw)[..|raw|] == raw
    ensures ByteBits(Checked(raw)[|raw| + 1]) + ByteBits(Checked(raw)[|raw|])
         == Remainder(Bits(raw) + seq(16, _ => false))
  {
    BytesOfWord(Checksum(raw), ((Checksum(raw) >> 8) & 0xff) as bv8, (Checksum(raw) & 0xff) as bv8);
    ChecksumByHand(raw);
  }

  method WithChecksum(raw: seq<bv8>, table: array<bv16>) returns (out: seq<bv8>)
    requires IsTable(table[..])
    ensures out == Checked(raw)
    ensures out[..|raw|] == raw && |out| == |raw| + 2
    ensures ByteBits(out[|raw| + 1]) + ByteBits(out[|raw|]) == Remainder(Bits(raw) + seq(16, _ => false))
  {
    var crc: bv16 := 0;
    for i := 0 to |raw|
      invariant crc == Serial(XMODEM, 0, Bits(raw[..i]))
    {
      TakeByte(raw, i, crc);
      TableAt(table[..], crc, raw[i]);
      crc := Plus(Lift(crc), table[Index(crc, raw[i]) as int]);
    }
    assert raw[..|raw|] == raw;
    SerialIsChecksum(raw);
    out := raw + [(crc & 0xff) as bv8, ((crc >> 8) & 0xff) as bv8];
    CheckedByHand(raw);
  }

  lemma SerialIsChecksum(raw: seq<bv8>)
    ensures Serial(XMODEM, 0, Bits(raw)) == Checksum(raw)
  {
    XmodemLaws();
    SerialIsRemainder(XMODEM, Bits(raw));
  }

  // ---------- what the checksum detects ----------

  function XorBytes(xs: seq<bv8>, ys: seq<bv8>): (r: seq<bv8>)
    requires |xs| == |ys|
    ensures |r| == |xs|
  {
    if xs == [] then [] else [xs[0] ^ ys[0]] + XorBytes(xs[1..], ys[1..])
  }

  lemma RegroupHigh(c: bv16, d: bv16, x: bv8, y: bv8)
    ensures Plus(Plus(c, d), High(x ^ y)) == Plus(Plus(c, High(x)), Plus(d, High(y)))
  {
  }

  lemma ByteLinear(c: bv16, d: bv16, x: bv8, y: bv8)
    ensures Serial(XMODEM, Plus(c, d), ByteBits(x ^ y))
         == Plus(Serial(XMODEM, c, ByteBits(x)), Serial(XMODEM, d, ByteBits(y)))
  {
    ByteStep(Plus(c, d), x ^ y);
    ByteStep(c, x);
    ByteStep(d, y);
    RegroupHigh(c, d, x, y);
    SumOfRounds(Plus(c, High(x)), Plus(d, High(y)));
  }

  lemma {:induction false} SerialLinear(c: bv16, d: bv16, xs: seq<bv8>, ys: seq<bv8>)
    requires |xs| == |ys|
    ensures Serial(XMODEM, Plus(c, d), Bits(XorBytes(xs, ys)))
         == Plus(Serial(XMODEM, c, Bits(xs)), Serial(XMODEM, d, Bits(ys)))
    decreases |xs|
  {
    if xs != [] {
      ByteLinear(c, d, xs[0], ys[0]);
      SerialByBytes(c, xs);
      SerialByBytes(d, ys);
      SerialByBytes(Plus(c, d), XorBytes(xs, ys));
      SerialLinear(Serial(XMODEM, c, ByteBits(xs[0])), Serial(XMODEM, d, ByteBits(ys[0])), xs[1..], ys[1..]);
    }
  }

  lemma SerialByBytes(c: bv16, xs: seq<bv8>)
    requires xs != []
    ensures Serial(XMODEM, c, Bits(xs)) == Serial(XMODEM, Serial(XMODEM, c, ByteBits(xs[0])), Bits(xs[1..]))
  {
    SerialJoin(XMODEM, c, ByteBits(xs[0]), Bits(xs[1..]));
  }

  /** For messages of one length the checksum is linear. */
  lemma ChecksumLinear(xs: seq<bv8>, ys: seq<bv8>)
    requires |xs| == |ys|
    ensures Checksum(XorBytes(xs, ys)) == Plus(Checksum(xs), Checksum(ys))
  {
    SerialIsChecksum(xs);
    SerialIsChecksum(ys);
    SerialIsChecksum(XorBytes(xs, ys));
    SerialLinear(0, 0, xs, ys);
  }

  lemma HighTells(x: bv8, y: bv8)
    requires High(x) == High(y)
    ensures x == y
  {
  }

  lemma BytesTold(c: bv16, x: bv8, y: bv8)
    requires Serial(XMODEM, c, ByteBits(x)) == Serial(XMODEM, c, ByteBits(y))
    ensures x == y
  {
    XmodemLaws();
    SerialTells(XMODEM, c, ByteBits(x), ByteBits(y));
    LinedByte(x);
    LinedByte(y);
    HighTells(x, y);
  }

  lemma SerialAround(pre: seq<bv8>, b: bv8, post: seq<bv8>)
    ensures Serial(XMODEM, 0, Bits(pre + [b] + post))
         == Serial(XMODEM, Serial(XMODEM, Serial(XMODEM, 0, Bits(pre)), ByteBits(b)), Bits(post))
  {
    BitsJoin(pre + [b], post);
    BitsJoin(pre, [b]);
    assert Bits([b]) == ByteBits(b);
    SerialJoin(XMODEM, 0, Bits(pre) + ByteBits(b), Bits(post));
    SerialJoin(XMODEM, 0, Bits(pre), ByteBits(b));
  }

  /** Changing any one byte, wherever it is and whatever it becomes, changes the checksum. */
  lemma OneByteDetected(raw: seq<bv8>, i: nat, b: bv8)
    requires i < |raw| && b != raw[i]
    ensures Checksum(raw[i := b]) != Checksum(raw)
  {
    var pre, post := raw[..i], raw[i + 1..];
    assert raw == pre + [raw[i]] + post;
    assert raw[i := b] == pre + [b] + post;
    SerialIsChecksum(raw);
    SerialIsChecksum(raw[i := b]);
    SerialAround(pre, raw[i], post);
    SerialAround(pre, b, post);
    if Checksum(raw[i := b]) == Checksum(raw) {
      var c := Serial(XMODEM, 0, Bits(pre));
      XmodemLaws();
      SerialInjective(XMODEM, Serial(XMODEM, c, ByteBits(raw[i])), Serial(XMODEM, c, ByteBits(b)), Bits(post));
      BytesTold(c, raw[i], b);
    }
  }
}
