/**
Divisibility by powers of five through modular inverses, and the removal of trailing decimal
zeros (`src/lstd/fmt/float_dragonbox.cpp`, lines 741-793 and 930-1034). Words are integers below
2^32 or 2^64, and every product of words is reduced explicitly.
 */
module TrailingZeros {
  import opened Powers

  datatype DivTest = DivTest(ModInv: nat, MaxQuot: nat)

  const DIVTEST_TABLE_FOR_POW5_32: seq<DivTest> := [
    DivTest(0x00000001, 0xffffffff), DivTest(0xcccccccd, 0x33333333),
    DivTest(0xc28f5c29, 0x0a3d70a3), DivTest(0x26e978d5, 0x020c49ba),
    DivTest(0x3afb7e91, 0x0068db8b), DivTest(0x0bcbe61d, 0x0014f8b5),
    DivTest(0x68c26139, 0x000431bd), DivTest(0xae8d46a5, 0x0000d6bf),
    DivTest(0x22e90e21, 0x00002af3), DivTest(0x3a2e9c6d, 0x00000897),
    DivTest(0x3ed61f49, 0x000001b7)]

  const DIVTEST_TABLE_FOR_POW5_64: seq<DivTest> := [
    DivTest(0x0000000000000001, 0xffffffffffffffff),
    DivTest(0xcccccccccccccccd, 0x3333333333333333),
    DivTest(0x8f5c28f5c28f5c29, 0x0a3d70a3d70a3d70),
    DivTest(0x1cac083126e978d5, 0x020c49ba5e353f7c),
    DivTest(0xd288ce703afb7e91, 0x0068db8bac710cb2),
    DivTest(0x5d4e8fb00bcbe61d, 0x0014f8b588e368f0),
    DivTest(0x790fb65668c26139, 0x000431bde82d7b63),
    DivTest(0xe5032477ae8d46a5, 0x0000d6bf94d5e57a),
    DivTest(0xc767074b22e90e21, 0x00002af31dc46118),
    DivTest(0x8e47ce423a2e9c6d, 0x0000089705f4136b),
    DivTest(0x4fa7f60d3ed61f49, 0x000001b7cdfd9d7b),
    DivTest(0x0fee64690c913975, 0x00000057f5ff85e5),
    DivTest(0x3662e0e1cf503eb1, 0x000000119799812d),
    DivTest(0xa47a2cf9f6433fbd, 0x0000000384b84d09),
    DivTest(0x54186f653140a659, 0x00000000b424dc35),
    DivTest(0x7738164770402145, 0x0000000024075f3d),
    DivTest(0xe4a4d1417cd9a041, 0x000000000734aca5),
    DivTest(0xc75429d9e5c5200d, 0x000000000170ef54),
    DivTest(0xc1773b91fac10669, 0x000000000049c977),
    DivTest(0x26b172506559ce15, 0x00000000000ec1e4),
    DivTest(0xd489e3a9addec2d1, 0x000000000002f394),
    DivTest(0x90e860bb892c8d5d, 0x000000000000971d),
    DivTest(0x502e79bf1b6f4f79, 0x0000000000001e39),
    DivTest(0xdcd618596be30fe5, 0x000000000000060b)]

  // Modular inverses

  /** What an entry of the tables is for: the inverse of `d` modulo `m`, and the largest quotient. */
  ghost predicate Tests(entry: DivTest, d: nat, m: nat)
    requires d > 0 && m > 1
  {
    (entry.ModInv * d) % m == 1 && entry.MaxQuot == (m - 1) / d
  }

  /** Multiplying the wrapped product by `d` gives back `x`, up to multiples of `m`. */
  lemma Undone(x: nat, inv: nat, d: nat, m: nat) returns (k: int)
    requires d > 0 && m > 1 && (inv * d) % m == 1
    ensures ((x * inv) % m) * d == x + k * m
  {
    var y := (x * inv) % m;
    var a, b := (x * inv) / m, (inv * d) / m;
    DivModLaw(x * inv, m);
    DivModLaw(inv * d, m);
    MulAssoc(x, inv, d);
    Distribute(d, a * m, y);
    Distribute(x, b * m, 1);
    MulAssoc(x, b, m);
    MulAssoc(a, m, d);
    MulSwap(a, m, d);
    assert (a * m) * d == (a * d) * m;
    k := x * b - a * d;
    assert y * d == x + (x * b) * m - (a * d) * m;
    Distribute(m, x * b, -(a * d));
    NegProduct(a * d, m);
  }

  /** The test decides divisibility, and the wrapped product is the exact quotient when it passes. */
  lemma TestDecides(entry: DivTest, x: nat, d: nat, m: nat)
    requires d > 0 && m > 1 && x < m && Tests(entry, d, m)
    ensures var y := (x * entry.ModInv) % m;
      (y <= entry.MaxQuot <==> x % d == 0) && (x % d == 0 ==> y == x / d)
  {
    var y := (x * entry.ModInv) % m;
    var k := Undone(x, entry.ModInv, d, m);
    DivModLaw(m - 1, d);
    DivModLaw(x, d);
    if y <= entry.MaxQuot {
      MulMono(y, entry.MaxQuot, d);
      OnlyItself(x, y * d, k, m);
      DivModUnique(x, d, y, 0);
    }
    if x % d == 0 {
      var q := x / d;
      WrappedQuotient(q, d, entry.ModInv, m);
      QuotientBelow(q, d, m);
    }
  }

  lemma OnlyItself(x: int, y: int, k: int, m: nat)
    requires y == x + k * m && 0 <= x < m && 0 <= y < m
    ensures x == y
  {
    if k >= 1 { MulMono(1, k, m); }
    if k <= -1 { MulMono(k, -1, m); }
  }

  lemma QuotientBelow(q: nat, d: nat, m: nat)
    requires d > 0 && q * d < m
    ensures q <= (m - 1) / d && q < m
  {
    DivModLaw(m - 1, d);
    var top := (m - 1) / d;
    if q > top { MulMono(top + 1, q, d); Distribute(d, top, 1); }
    MulMono(1, d, q);
  }

  lemma WrappedQuotient(q: nat, d: nat, inv: nat, m: nat)
    requires d > 0 && m > 1 && q * d < m && (inv * d) % m == 1
    ensures ((q * d) * inv) % m == q
  {
    var b := (inv * d) / m;
    DivModLaw(inv * d, m);
    MulAssoc(q, d, inv);
    Distribute(q, b * m, 1);
    MulAssoc(q, b, m);
    QuotientBelow(q, d, m);
    assert (q * d) * inv == (q * b) * m + q;
    DivModUnique((q * d) * inv, m, q * b, q);
  }

  // The tables

  /** Each entry follows from the one before it: the inverse loses a factor of five, and the
      largest quotient is divided by five. */
  ghost predicate Follows(now: DivTest, was: DivTest, m: nat)
    requires m > 1
  {
    (now.ModInv * 5) % m == was.ModInv && now.MaxQuot == was.MaxQuot / 5
  }

  lemma NextEntry(now: DivTest, was: DivTest, d: nat, m: nat)
    requires d > 0 && m > 1 && Tests(was, d, m) && Follows(now, was, m)
    ensures Tests(now, 5 * d, m)
  {
    var a, b := (now.ModInv * 5) / m, (was.ModInv * d) / m;
    DivModLaw(now.ModInv * 5, m);
    DivModLaw(was.ModInv * d, m);
    MulAssoc(now.ModInv, 5, d);
    Distribute(d, a * m, was.ModInv);
    MulAssoc(a, m, d);
    MulAssoc(a, d, m);
    assert a * (m * d) == a * (d * m);
    assert now.ModInv * (5 * d) == (a * d) * m + b * m + 1;
    Distribute(m, a * d, b);
    DivModUnique(now.ModInv * (5 * d), m, a * d + b, 1);
    FloorOfFloor(m - 1, d);
  }

  lemma FloorOfFloor(x: nat, d: nat)
    requires d > 0
    ensures x / (5 * d) == (x / d) / 5
  {
    var q := x / d;
    DivModLaw(x, d);
    var t, r := q / 5, q % 5;
    Distribute(d, 5 * t, r);
    MulAssoc(5, t, d);
    MulSwap(t, 5, d);
    MulMono(r, 4, d);
    assert x == t * (5 * d) + (r * d + x % d);
    DivModUnique(x, 5 * d, t, r * d + x % d);
  }

  lemma Table32Follows(e: nat)
    requires 0 < e < |DIVTEST_TABLE_FOR_POW5_32|
    ensures Follows(DIVTEST_TABLE_FOR_POW5_32[e], DIVTEST_TABLE_FOR_POW5_32[e - 1], TWO32)
  {
  }

  lemma Table64Follows(e: nat)
    requires 0 < e < |DIVTEST_TABLE_FOR_POW5_64|
    ensures Follows(DIVTEST_TABLE_FOR_POW5_64[e], DIVTEST_TABLE_FOR_POW5_64[e - 1], TWO64)
  {
  }

  /** Every entry of the 32-bit table is right. */
  lemma {:induction false} Table32Tests(e: nat)
    requires e < |DIVTEST_TABLE_FOR_POW5_32|
    ensures Tests(DIVTEST_TABLE_FOR_POW5_32[e], Pow(5, e), TWO32)
  {
    if e > 0 {
      Table32Tests(e - 1);
      Table32Follows(e);
      hide Tests, Follows;
      NextEntry(DIVTEST_TABLE_FOR_POW5_32[e], DIVTEST_TABLE_FOR_POW5_32[e - 1], Pow(5, e - 1), TWO32);
    }
  }

  /** Every entry of the 64-bit table is right. */
  lemma {:induction false} Table64Tests(e: nat)
    requires e < |DIVTEST_TABLE_FOR_POW5_64|
    ensures Tests(DIVTEST_TABLE_FOR_POW5_64[e], Pow(5, e), TWO64)
  {
    if e > 0 {
      Table64Tests(e - 1);
      Table64Follows(e);
      hide Tests, Follows;
      NextEntry(DIVTEST_TABLE_FOR_POW5_64[e], DIVTEST_TABLE_FOR_POW5_64[e - 1], Pow(5, e - 1), TWO64);
    }
  }

  /** `divisible_by_power_of_5` for `u32`. */
  predicate DivisibleByPowerOf5U32(x: nat, exp: nat)
    requires x < TWO32 && exp <= 10
  {
    var entry := DIVTEST_TABLE_FOR_POW5_32[exp];
    (x * entry.ModInv) % TWO32 <= entry.MaxQuot
  }

  /** `divisible_by_power_of_5` for `u64`. */
  predicate DivisibleByPowerOf5U64(x: nat, exp: nat)
    requires x < TWO64 && exp <= 23
  {
    var entry := DIVTEST_TABLE_FOR_POW5_64[exp];
    (x * entry.ModInv) % TWO64 <= entry.MaxQuot
  }

  lemma DivisibleU32IsExact(x: nat, exp: nat)
    requires x < TWO32 && exp <= 10
    ensures DivisibleByPowerOf5U32(x, exp) <==> x % Pow(5, exp) == 0
  {
    hide Pow, Tests;
    Table32Tests(exp);
    TestDecides(DIVTEST_TABLE_FOR_POW5_32[exp], x, Pow(5, exp), TWO32);
  }

  lemma DivisibleU64IsExact(x: nat, exp: nat)
    requires x < TWO64 && exp <= 23
    ensures DivisibleByPowerOf5U64(x, exp) <==> x % Pow(5, exp) == 0
  {
    hide Pow, Tests;
    Table64Tests(exp);
    TestDecides(DIVTEST_TABLE_FOR_POW5_64[exp], x, Pow(5, exp), TWO64);
  }

  // Removing trailing zeros

  /** `n0` without `s` of its trailing zeros is `n`; fewer than `cap` only if no more are left. */
  ghost predicate Stripped(n0: nat, s: nat, n: nat, cap: nat) {
    n0 == n * Pow(10, s) && s <= cap && (s < cap ==> n % 10 != 0)
  }

  /** The number of zeros removed is the largest one possible up to the cap. */
  lemma StrippedIsMaximal(n0: nat, s: nat, n: nat, cap: nat, k: nat)
    requires Stripped(n0, s, n, cap) && k <= cap && n0 % Pow(10, k) == 0
    ensures k <= s
  {
    if k > s {
      PowAdd(10, s, k - s);
      var p, q, r := Pow(10, s), Pow(10, k - s), n0 / Pow(10, k);
      DivModLaw(n0, Pow(10, k));
      assert r * (p * q) == (r * q) * p by { MulAssoc(r, q, p); MulSwap(r, p, q); MulSwap(r, q, p); }
      Cancel(n, r * q, p);
      assert q == 10 * Pow(10, k - s - 1);
      MulSwap(r, 10, Pow(10, k - s - 1));
      ProductIsMultiple(r * Pow(10, k - s - 1), 10);
    }
  }

  lemma Cancel(a: int, b: int, p: nat)
    requires p > 0 && a * p == b * p
    ensures a == b
  {
    if a < b { StrictlyLess(a, b, p); }
    if b < a { StrictlyLess(b, a, p); }
  }

  lemma ProductIsMultiple(k: int, d: nat)
    requires d > 0
    ensures (k * d) % d == 0 && (d * k) % d == 0 && (k * d) / d == k
  {
    DivModUnique(k * d, d, k, 0);
  }

  ghost predicate Multiple(x: nat, d: nat) {
    d > 0 && x % d == 0
  }

  lemma MultipleOfMultiple(x: nat, d: nat, k: nat, kd: nat)
    requires d > 0 && k > 0 && kd == k * d && Multiple(x, kd)
    ensures Multiple(x, d) && Multiple(x, k)
  {
    var q := x / (k * d);
    DivModLaw(x, k * d);
    MulAssoc(q, k, d);
    MulSwap(q, k, d);
    ProductIsMultiple(q * k, d);
    ProductIsMultiple(q * d, k);
  }

  lemma {:induction false} TenIsTwoFives(s: nat)
    ensures Pow(10, s) == Pow(2, s) * Pow(5, s)
  {
    if s > 0 {
      TenIsTwoFives(s - 1);
      var a, b := Pow(2, s - 1), Pow(5, s - 1);
      MulAssoc(2, a, 5 * b);
      MulSwap(a, 5, b);
      assert 2 * (5 * (a * b)) == 10 * (a * b);
    }
  }

  /** `lsb`: the index of the lowest set bit. */
  function Lsb(n: nat): (t: nat)
    requires n > 0
    ensures Multiple(n, Pow(2, t)) && !Multiple(n, Pow(2, t + 1))
  {
    if n % 2 == 1 then 0
    else
      var t := Lsb(n / 2);
      Doubling(n / 2, Pow(2, t));
      Doubling(n / 2, Pow(2, t + 1));
      t + 1
  }

  lemma Doubling(x: nat, d: nat)
    requires d > 0
    ensures Multiple(2 * x, 2 * d) <==> Multiple(x, d)
  {
    DivModLaw(x, d);
    var q, r := x / d, x % d;
    MulSwap(q, 2, d);
    DivModUnique(2 * x, 2 * d, q, 2 * r);
  }

  /** `t` is the number of factors two of `n`, or `cap` if there are more. */
  ghost predicate Twos(n: nat, t: nat, cap: nat) {
    Multiple(n, Pow(2, t)) && t <= cap && (t < cap ==> !Multiple(n, Pow(2, t + 1)))
  }

  /** The `t` both functions start from. */
  lemma LsbUpTo(n: nat, cap: nat)
    requires n > 0
    ensures Twos(n, if Lsb(n) > cap then cap else Lsb(n), cap)
  {
    hide Lsb, Pow, Multiple;
    var t := Lsb(n);
    if t > cap {
      PowAdd(2, cap, t - cap);
      MultipleOfMultiple(n, Pow(2, t - cap), Pow(2, cap), Pow(2, t));
    }
  }

  lemma Half(x: nat) returns (y: nat)
    requires Multiple(5 * x, 2)
    ensures x == 2 * y
  {
    y := x / 2;
  }

  /** A factor five takes no factor two away. */
  lemma {:induction false} FiveKeepsTwos(x: nat, t: nat)
    requires Multiple(5 * x, Pow(2, t))
    ensures Multiple(x, Pow(2, t))
  {
    if t > 0 {
      var p := Pow(2, t - 1);
      assert Pow(2, t) == 2 * p;
      hide Multiple, Pow;
      MultipleOfMultiple(5 * x, p, 2, Pow(2, t));
      var y := Half(x);
      assert 5 * x == 2 * (5 * y);
      Doubling(5 * y, p);
      FiveKeepsTwos(y, t - 1);
      Doubling(y, p);
    }
  }

  lemma {:induction false} FivesKeepTwos(x: nat, s: nat, t: nat)
    requires Multiple(x * Pow(5, s), Pow(2, t))
    ensures Multiple(x, Pow(2, t))
  {
    if s > 0 {
      MulSwap(x, 5, Pow(5, s - 1));
      FiveKeepsTwos(x * Pow(5, s - 1), t);
      FivesKeepTwos(x, s - 1, t);
    }
  }

  lemma ExactQuotient(x: nat, d: nat)
    requires Multiple(x, d)
    ensures d > 0 && x == (x / d) * d
  {
    DivModLaw(x, d);
  }

  lemma FactorsDivide(q: nat, a: nat, b: nat)
    requires a > 0 && b > 0
    ensures Multiple(q * (a * b), a) && Multiple(q * (a * b), b)
  {
    MulSwap(q, a, b);
    MulAssoc(q, a, b);
    ProductIsMultiple(q * b, a);
    ProductIsMultiple(q * a, b);
  }

  /** `m` is `n0` divided by `s` fives. */
  ghost predicate WithoutFives(n0: nat, m: nat, s: nat) {
    n0 == m * Pow(5, s)
  }

  /** What is left after removing `s` fives is shifted by `s`: exactly that many zeros are gone. */
  lemma ShiftedByFives(n0: nat, m: nat, s: nat, t: nat, cap: nat)
    requires WithoutFives(n0, m, s) && Twos(n0, t, cap) && s <= t
    ensures Multiple(m, Pow(2, s)) && n0 == (m / Pow(2, s)) * Pow(10, s)
  {
    hide Pow, Multiple;
    PowAdd(2, s, t - s);
    MultipleOfMultiple(n0, Pow(2, t - s), Pow(2, s), Pow(2, t));
    FivesKeepTwos(m, s, s);
    ExactQuotient(m, Pow(2, s));
    TenIsTwoFives(s);
    MulAssoc(m / Pow(2, s), Pow(2, s), Pow(5, s));
  }

  /** Ten times more zeros need another two and another five. */
  lemma OneMoreZero(n0: nat, n: nat, s: nat)
    requires n0 == n * Pow(10, s) && n % 10 == 0
    ensures Multiple(n0, Pow(2, s + 1)) && Multiple(n0, Pow(5, s + 1))
  {
    hide Multiple;
    var q := n / 10;
    MulAssoc(q, 10, Pow(10, s));
    assert n0 == q * Pow(10, s + 1);
    TenIsTwoFives(s + 1);
    hide Pow;
    FactorsDivide(q, Pow(2, s + 1), Pow(5, s + 1));
  }

  lemma FiveLeft(n0: nat, m: nat, s: nat)
    requires WithoutFives(n0, m, s) && Multiple(n0, Pow(5, s + 1))
    ensures m % 5 == 0
  {
    var q := n0 / Pow(5, s + 1);
    ExactQuotient(n0, Pow(5, s + 1));
    MulAssoc(q, 5, Pow(5, s));
    Cancel(m, q * 5, Pow(5, s));
  }

  /** The shift `n >>= s` that ends both functions. */
  function Halved(n: nat, s: nat): (m: nat) {
    n / Pow(2, s)
  }

  /** The loops stop when the twos or the fives have run out. */
  lemma LoopStrips(n0: nat, m: nat, s: nat, t: nat, cap: nat)
    requires WithoutFives(n0, m, s) && Twos(n0, t, cap) && s <= t
    requires s == t || m % 5 != 0
    ensures Stripped(n0, s, Halved(m, s), cap)
  {
    hide Pow, Multiple;
    ShiftedByFives(n0, m, s, t, cap);
    if s < cap && (m / Pow(2, s)) % 10 == 0 {
      OneMoreZero(n0, m / Pow(2, s), s);
      if m % 5 != 0 { FiveLeft(n0, m, s); }
    }
  }

  // The four tests both functions make

  const MOD_INV1: nat := 0xcccccccd
  const MAX_QUOTIENT1: nat := 0x33333333
  const MOD_INV2: nat := 0xc28f5c29
  const MAX_QUOTIENT2: nat := 0x0a3d70a3
  const MOD_INV8: nat := 0xc767074b22e90e21
  const MAX_QUOTIENT8: nat := 0x00002af31dc46118

  /** Products of words wrap around. */
  function MulU32(x: nat, y: nat): (z: nat)
    ensures z < TWO32
  {
    (x * y) % TWO32
  }

  function MulU64(x: nat, y: nat): (z: nat)
    ensures z < TWO64
  {
    (x * y) % TWO64
  }

  lemma PowersOfFive()
    ensures Pow(5, 1) == 5 && Pow(5, 2) == 25 && Pow(5, 8) == 390625
  {
  }

  lemma DivideByFive(n0: nat, m: nat, s: nat)
    requires WithoutFives(n0, m, s) && m < TWO32
    ensures var y := MulU32(m, MOD_INV1);
      (y > MAX_QUOTIENT1 ==> m % 5 != 0) && (y <= MAX_QUOTIENT1 ==> WithoutFives(n0, y, s + 1) && m == 5 * y)
  {
    Table32Tests(1);
    PowersOfFive();
    TestDecides(DIVTEST_TABLE_FOR_POW5_32[1], m, 5, TWO32);
    MulSwap(m / 5, 5, Pow(5, s));
    MulAssoc(5, m / 5, Pow(5, s));
  }

  lemma DivideByTwentyFive(n0: nat, m: nat, s: nat)
    requires WithoutFives(n0, m, s) && m < TWO32
    ensures var y := MulU32(m, MOD_INV2);
      (y > MAX_QUOTIENT2 ==> m % 25 != 0) && (y <= MAX_QUOTIENT2 ==> WithoutFives(n0, y, s + 2) && m == 25 * y)
  {
    Table32Tests(2);
    PowersOfFive();
    TestDecides(DIVTEST_TABLE_FOR_POW5_32[2], m, 25, TWO32);
    PowAdd(5, 2, s);
    MulSwap(m / 25, 25, Pow(5, s));
    MulAssoc(25, m / 25, Pow(5, s));
  }

  /** The end of the 32-bit function: after the pairs of fives, at most one more five. */
  lemma PairsThenOne(n0: nat, m: nat, s: nat, t: nat)
    requires WithoutFives(n0, m, s) && m < TWO32 && Twos(n0, t, 7) && s <= t
    requires s + 1 >= t || m % 25 != 0
    ensures var y := MulU32(m, MOD_INV1);
      if s < t && y <= MAX_QUOTIENT1 then Stripped(n0, s + 1, Halved(y, s + 1), 7)
      else Stripped(n0, s, Halved(m, s), 7)
  {
    hide Pow, Stripped, Twos, WithoutFives, MulU32;
    DivideByFive(n0, m, s);
    var y := MulU32(m, MOD_INV1);
    if s < t && y <= MAX_QUOTIENT1 {
      LoopStrips(n0, y, s + 1, t, 7);
    } else {
      LoopStrips(n0, m, s, t, 7);
    }
  }

  /** `remove_trailing_zeros` for `u32`, with the number left behind as a second result. */
  method RemoveTrailingZerosU32(n0: nat) returns (s: nat, n: nat)
    requires 0 < n0 < TWO32
    ensures Stripped(n0, s, n, 7)
  {
    hide Pow, Stripped, Twos, WithoutFives, Lsb, MulU32, Halved;
    var t := Lsb(n0);
    if t > 7 { t := 7; }
    LsbUpTo(n0, 7);
    n, s := n0, 0;
    StartOfFives(n0);
    while s + 1 < t
      invariant s <= t && n < TWO32 && WithoutFives(n0, n, s)
    {
      DivideByTwentyFive(n0, n, s);
      if MulU32(n, MOD_INV2) > MAX_QUOTIENT2 {
        assert n % 25 != 0;
        break;
      }
      n := MulU32(n, MOD_INV2);
      s := s + 2;
    }
    PairsThenOne(n0, n, s, t);
    if s < t && MulU32(n, MOD_INV1) <= MAX_QUOTIENT1 {
      n := MulU32(n, MOD_INV1);
      s := s + 1;
    }
    n := Halved(n, s);
  }

  lemma StartOfFives(n: nat)
    ensures WithoutFives(n, n, 0)
  {
  }

  const ONE_E8: nat := 100000000

  lemma LiteralPowers()
    ensures Pow(2, 0) == 1 && Pow(2, 1) == 2 && Pow(2, 2) == 4 && Pow(2, 3) == 8
    ensures Pow(2, 4) == 16 && Pow(2, 5) == 32 && Pow(2, 6) == 64 && Pow(2, 7) == 128
    ensures Pow(10, 1) == 10 && Pow(10, 2) == 100 && Pow(10, 3) == 1000 && Pow(10, 4) == 10000
    ensures Pow(10, 5) == 100000 && Pow(10, 6) == 1000000 && Pow(10, 7) == 10000000
    ensures Pow(10, 8) == ONE_E8
  {
    var p := Pow(10, 4);
    assert Pow(10, 8) == 10 * (10 * (10 * (10 * p))) && p == 10 * (10 * (10 * 10));
  }

  /** The first test of the 64-bit function: by 5^8, which finds eight zeros when there are eight
      factors two as well. */
  lemma EightZeros(n0: nat, t: nat)
    requires n0 < TWO32 * ONE_E8 && Twos(n0, t, 16) && t >= 8
    ensures var y := MulU64(n0, MOD_INV8); var q := y / 256;
      (y > MAX_QUOTIENT8 ==> !Multiple(n0, Pow(5, 8)))
      && (y <= MAX_QUOTIENT8 ==> n0 == q * ONE_E8 && q < TWO32 && Twos(q, t - 8, 8))
  {
    hide Pow;
    Table64Tests(8);
    PowersOfFive();
    LiteralPowers();
    Pow2Byte();
    TestDecides(DIVTEST_TABLE_FOR_POW5_64[8], n0, 390625, TWO64);
    var y := MulU64(n0, MOD_INV8);
    if y <= MAX_QUOTIENT8 {
      assert n0 == y * 390625;
      ShiftedByFives(n0, y, 8, t, 16);
      FewerTwos(y / 256, n0, t);
    }
  }

  lemma FewerTwos(q: nat, n0: nat, t: nat)
    requires n0 == q * ONE_E8 && Twos(n0, t, 16) && t >= 8
    ensures Twos(q, t - 8, 8)
  {
    hide Pow, Multiple;
    EightTwos(q, n0, t - 8);
    if t < 16 { EightTwos(q, n0, t - 7); }
  }

  lemma EightTwos(q: nat, n0: nat, t: nat)
    requires n0 == q * ONE_E8
    ensures Multiple(q, Pow(2, t)) <==> Multiple(n0, Pow(2, t + 8))
  {
    hide Pow, Multiple;
    LiteralPowers();
    Pow2Byte();
    PowersOfFive();
    PowAdd(2, t, 8);
    if Multiple(n0, Pow(2, t + 8)) {
      assert (256 * q) * Pow(5, 8) == n0;
      FivesKeepTwos(256 * q, 8, t + 8);
      Scaled(q, Pow(2, t), 256);
    }
    if Multiple(q, Pow(2, t)) {
      Scaled(q, Pow(2, t), 256);
      assert n0 == 390625 * (256 * q);
      MoreFactors(256 * q, Pow(2, t + 8), 390625);
    }
  }

  lemma Scaled(x: nat, d: nat, k: nat)
    requires k > 0 && d > 0
    ensures Multiple(k * x, d * k) <==> Multiple(x, d)
  {
    DivModLaw(x, d);
    var q, r := x / d, x % d;
    MulSwap(k, q, d);
    Distribute(k, q * d, r);
    MulMono(r + 1, d, k);
    Distribute(k, r, 1);
    assert q * (d * k) == k * (q * d) by { MulAssoc(q, d, k); }
    DivModUnique(k * x, d * k, q, k * r);
    if r > 0 { MulMono(1, r, k); }
  }

  lemma MoreFactors(x: nat, d: nat, k: nat)
    requires Multiple(x, d)
    ensures Multiple(k * x, d)
  {
    ExactQuotient(x, d);
    MulAssoc(k, x / d, d);
    ProductIsMultiple(k * (x / d), d);
  }

  /** Zeros of the quotient by 10^8 and the eight zeros before them. */
  lemma EightMoreZeros(n0: nat, q: nat, s: nat, n: nat)
    requires n0 == q * ONE_E8 && Stripped(q, s, n, 8)
    ensures Stripped(n0, s + 8, n, 16)
  {
    hide Pow;
    LiteralPowers();
    PowAdd(10, s, 8);
    MulAssoc(n, Pow(10, s), Pow(10, 8));
  }

  /** The remainder by 10^8 has lost `k` fives. */
  ghost predicate InRemainder(n0: nat, q: nat, r: nat, k: nat) {
    k <= 7 && q < TWO32 && exists r0: nat :: n0 == q * ONE_E8 + r0 && WithoutFives(r0, r, k)
  }

  /** Why the removal may stop after `k` zeros: no more twos, no more fives, or the one case left
      over by the first test. */
  ghost predicate MayStop(n0: nat, r: nat, k: nat, t: nat) {
    k == t || r % 5 != 0 || (k == 7 && (t >= 8 ==> !Multiple(n0, Pow(5, 8))))
  }

  lemma StopAt(n0: nat, q: nat, r: nat, k: nat, t: nat, w: nat, n: nat)
    requires InRemainder(n0, q, r, k) && Twos(n0, t, 16) && k <= t && MayStop(n0, r, k, t)
    requires w == r / Pow(2, k) && n == w + q * Pow(10, 8 - k)
    ensures Stripped(n0, k, n, 16)
  {
    var r0: nat :| n0 == q * ONE_E8 + r0 && WithoutFives(r0, r, k);
    hide Pow, Multiple, Stripped;
    RemainderShifted(n0, q, r0, r, k, t);
    Regroup(n0, q, w, k);
    if n % 10 == 0 {
      OneMoreZero(n0, n, k);
      if r % 5 != 0 {
        FivesOfRemainder(n0, q, r0, k + 1);
        FiveLeft(r0, r, k);
      }
    }
    DefineStripped(n0, k, n);
  }

  lemma DefineStripped(n0: nat, k: nat, n: nat)
    requires n0 == n * Pow(10, k) && k <= 16 && n % 10 != 0
    ensures Stripped(n0, k, n, 16)
  {
  }

  lemma RemainderShifted(n0: nat, q: nat, r0: nat, r: nat, k: nat, t: nat)
    requires n0 == q * ONE_E8 + r0 && WithoutFives(r0, r, k) && Twos(n0, t, 16) && k <= t && k <= 7
    ensures r0 == (r / Pow(2, k)) * Pow(10, k)
  {
    hide Pow, Multiple;
    PowAdd(2, k, t - k);
    MultipleOfMultiple(n0, Pow(2, t - k), Pow(2, k), Pow(2, t));
    ZerosOfRemainder(n0, q, r0, k);
    FivesKeepTwos(r, k, k);
    ExactQuotient(r, Pow(2, k));
    TenIsTwoFives(k);
    MulAssoc(r / Pow(2, k), Pow(2, k), Pow(5, k));
  }

  lemma Regroup(n0: nat, q: nat, w: nat, k: nat)
    requires k <= 7 && n0 == q * ONE_E8 + w * Pow(10, k)
    ensures n0 == (w + q * Pow(10, 8 - k)) * Pow(10, k)
  {
    hide Pow;
    LiteralPowers();
    var a, b := Pow(10, k), Pow(10, 8 - k);
    PowAdd(10, 8 - k, k);
    MulAssoc(q, b, a);
    Distribute(a, w, q * b);
  }

  lemma ZerosOfRemainder(n0: nat, q: nat, r0: nat, k: nat)
    requires n0 == q * ONE_E8 + r0 && k <= 8 && Multiple(n0, Pow(2, k))
    ensures Multiple(r0, Pow(2, k))
  {
    hide Pow, Multiple;
    LiteralPowers();
    PowAdd(10, k, 8 - k);
    TenIsTwoFives(k);
    PowerInProduct(q, Pow(2, k), Pow(5, k), Pow(10, 8 - k), ONE_E8);
    DifferenceIsMultiple(n0, q * ONE_E8, Pow(2, k));
  }

  lemma FivesOfRemainder(n0: nat, q: nat, r0: nat, k: nat)
    requires n0 == q * ONE_E8 + r0 && k <= 8 && Multiple(n0, Pow(5, k))
    ensures Multiple(r0, Pow(5, k))
  {
    hide Pow, Multiple;
    LiteralPowers();
    PowAdd(10, k, 8 - k);
    TenIsTwoFives(k);
    PowerInProduct(q, Pow(5, k), Pow(2, k), Pow(10, 8 - k), ONE_E8);
    DifferenceIsMultiple(n0, q * ONE_E8, Pow(5, k));
  }

  lemma PowerInProduct(q: nat, a: nat, b: nat, c: nat, e: nat)
    requires a > 0 && b > 0 && e == (a * b) * c
    ensures Multiple(q * e, a)
  {
    MulAssoc(a, b, c);
    MulSwap(q, a, b * c);
    ProductIsMultiple(q * (b * c), a);
  }

  lemma DifferenceIsMultiple(x: nat, y: nat, d: nat)
    requires Multiple(x, d) && Multiple(y, d) && y <= x
    ensures Multiple(x - y, d)
  {
    ExactQuotient(x, d);
    ExactQuotient(y, d);
    Distribute(d, x / d, -(y / d));
    NegProduct(y / d, d);
    ProductIsMultiple(x / d - y / d, d);
  }

  /** One more five out of the remainder, or none left. */
  lemma NextFive(n0: nat, q: nat, r: nat, k: nat)
    requires InRemainder(n0, q, r, k) && r < TWO32
    ensures MulU32(r, MOD_INV1) > MAX_QUOTIENT1 ==> r % 5 != 0
    ensures MulU32(r, MOD_INV1) <= MAX_QUOTIENT1 && k < 7 ==> InRemainder(n0, q, MulU32(r, MOD_INV1), k + 1)
  {
    hide MulU32;
    var r0: nat :| n0 == q * ONE_E8 + r0 && WithoutFives(r0, r, k);
    DivideByFive(r0, r, k);
  }

  lemma SplitByE8(n0: nat)
    requires n0 < TWO32 * ONE_E8
    ensures var q := n0 / ONE_E8;
      q < TWO32 && n0 - ONE_E8 * q < ONE_E8 && InRemainder(n0, q, n0 - ONE_E8 * q, 0)
  {
    StartOfFives(n0 % ONE_E8);
  }

  /** The branch of `remove_trailing_zeros` for `u64` that works with the remainder by 10^8. */
  method RemoveFromRemainder(n0: nat, t: nat) returns (s: nat, n: nat)
    requires n0 < TWO32 * ONE_E8 && Twos(n0, t, 16)
    requires t >= 8 ==> !Multiple(n0, Pow(5, 8))
    ensures Stripped(n0, s, n, 16)
  {
    hide Pow, Stripped, Twos, InRemainder, Multiple, MulU32;
    LiteralPowers();
    SplitByE8(n0);
    var quotient := n0 / ONE_E8;
    var remainder := n0 - ONE_E8 * quotient;

    NextFive(n0, quotient, remainder, 0);
    if t == 0 || MulU32(remainder, MOD_INV1) > MAX_QUOTIENT1 {
      StopAt(n0, quotient, remainder, 0, t, remainder, n0);
      return 0, n0;
    }
    remainder := MulU32(remainder, MOD_INV1);

    NextFive(n0, quotient, remainder, 1);
    if t == 1 || MulU32(remainder, MOD_INV1) > MAX_QUOTIENT1 {
      StopAt(n0, quotient, remainder, 1, t, remainder / 2, remainder / 2 + quotient * 10000000);
      return 1, remainder / 2 + quotient * 10000000;
    }
    remainder := MulU32(remainder, MOD_INV1);

    NextFive(n0, quotient, remainder, 2);
    if t == 2 || MulU32(remainder, MOD_INV1) > MAX_QUOTIENT1 {
      StopAt(n0, quotient, remainder, 2, t, remainder / 4, remainder / 4 + quotient * 1000000);
      return 2, remainder / 4 + quotient * 1000000;
    }
    remainder := MulU32(remainder, MOD_INV1);

    NextFive(n0, quotient, remainder, 3);
    if t == 3 || MulU32(remainder, MOD_INV1) > MAX_QUOTIENT1 {
      StopAt(n0, quotient, remainder, 3, t, remainder / 8, remainder / 8 + quotient * 100000);
      return 3, remainder / 8 + quotient * 100000;
    }
    remainder := MulU32(remainder, MOD_INV1);

    NextFive(n0, quotient, remainder, 4);
    if t == 4 || MulU32(remainder, MOD_INV1) > MAX_QUOTIENT1 {
      StopAt(n0, quotient, remainder, 4, t, remainder / 16, remainder / 16 + quotient * 10000);
      return 4, remainder / 16 + quotient * 10000;
    }
    remainder := MulU32(remainder, MOD_INV1);

    NextFive(n0, quotient, remainder, 5);
    if t == 5 || MulU32(remainder, MOD_INV1) > MAX_QUOTIENT1 {
      StopAt(n0, quotient, remainder, 5, t, remainder / 32, remainder / 32 + quotient * 1000);
      return 5, remainder / 32 + quotient * 1000;
    }
    remainder := MulU32(remainder, MOD_INV1);

    NextFive(n0, quotient, remainder, 6);
    if t == 6 || MulU32(remainder, MOD_INV1) > MAX_QUOTIENT1 {
      StopAt(n0, quotient, remainder, 6, t, remainder / 64, remainder / 64 + quotient * 100);
      return 6, remainder / 64 + quotient * 100;
    }
    remainder := MulU32(remainder, MOD_INV1);

    StopAt(n0, quotient, remainder, 7, t, remainder / 128, remainder / 128 + quotient * 10);
    return 7, remainder / 128 + quotient * 10;
  }

  /** The branch of `remove_trailing_zeros` for `u64` that works with the quotient by 10^8. */
  method RemoveFromQuotient(q: nat, t: nat) returns (s: nat, n: nat)
    requires q < TWO32 && 8 <= t && Twos(q, t - 8, 8)
    ensures s >= 8 && Stripped(q, s - 8, n, 8)
  {
    hide Pow, Stripped, Twos, WithoutFives, MulU32, Halved;
    var quotient: nat := q;
    s := 8;
    StartOfFives(quotient);
    while s < t
      invariant 8 <= s <= t && quotient < TWO32 && WithoutFives(q, quotient, s - 8)
    {
      DivideByFive(q, quotient, s - 8);
      if MulU32(quotient, MOD_INV1) > MAX_QUOTIENT1 { break; }
      quotient := MulU32(quotient, MOD_INV1);
      s := s + 1;
    }
    LoopStrips(q, quotient, s - 8, t - 8, 8);
    n := Halved(quotient, s - 8);
  }

  /** `remove_trailing_zeros` for `u64`, with the number left behind as a second result. */
  method RemoveTrailingZerosU64(n0: nat) returns (s: nat, n: nat)
    requires 0 < n0 < TWO32 * ONE_E8
    ensures Stripped(n0, s, n, 16)
  {
    hide Pow, Stripped, Twos, Lsb, Multiple, MulU64;
    var t := Lsb(n0);
    if t > 16 { t := 16; }
    LsbUpTo(n0, 16);
    if t >= 8 {
      EightZeros(n0, t);
      var quotientCandidate := MulU64(n0, MOD_INV8);
      if quotientCandidate <= MAX_QUOTIENT8 {
        var quotient := (quotientCandidate / 256) % TWO32;
        s, n := RemoveFromQuotient(quotient, t);
        EightMoreZeros(n0, quotient, s - 8, n);
        return;
      }
    }
    s, n := RemoveFromRemainder(n0, t);
  }
}
