/**
Powers of ten and the number of decimal digits of a word
(`include/lstd/bits.h`, lines 156-194).
 */
module DecimalDigits {
  import opened Powers
  import opened Bits

  predicate IsDigit(c: char) {
    '0' <= c <= '9'
  }

  /** `POWERS_OF_10_64`. */
  const POWERS_OF_10_64: seq<int> := [
    1,
    10,
    100,
    1000,
    10000,
    100000,
    1000000,
    10000000,
    100000000,
    1000000000,
    10000000000,
    100000000000,
    1000000000000,
    10000000000000,
    100000000000000,
    1000000000000000,
    10000000000000000,
    100000000000000000,
    1000000000000000000,
    10000000000000000000
  ]

  /** The powers of ten around the 64-bit range. */
  lemma Pow10Values()
    ensures Pow(10, 0) == 1
    ensures Pow(10, 1) == 10
    ensures Pow(10, 2) == 100
    ensures Pow(10, 3) == 1000
    ensures Pow(10, 4) == 10000
    ensures Pow(10, 5) == 100000
    ensures Pow(10, 6) == 1000000
    ensures Pow(10, 7) == 10000000
    ensures Pow(10, 8) == 100000000
    ensures Pow(10, 9) == 1000000000
    ensures Pow(10, 10) == 10000000000
    ensures Pow(10, 11) == 100000000000
    ensures Pow(10, 12) == 1000000000000
    ensures Pow(10, 13) == 10000000000000
    ensures Pow(10, 14) == 100000000000000
    ensures Pow(10, 15) == 1000000000000000
    ensures Pow(10, 16) == 10000000000000000
    ensures Pow(10, 17) == 100000000000000000
    ensures Pow(10, 18) == 1000000000000000000
    ensures Pow(10, 19) == 10000000000000000000
    ensures Pow(10, 20) == 100000000000000000000
  {
    hide Pow;
    Pow10Step(0);
    Pow10Step(1);
    Pow10Step(2);
    Pow10Step(3);
    Pow10Step(4);
    Pow10Step(5);
    Pow10Step(6);
    Pow10Step(7);
    Pow10Step(8);
    Pow10Step(9);
    Pow10Step(10);
    Pow10Step(11);
    Pow10Step(12);
    Pow10Step(13);
    Pow10Step(14);
    Pow10Step(15);
    Pow10Step(16);
    Pow10Step(17);
    Pow10Step(18);
    Pow10Step(19);
  }

  /** The table holds the powers of ten that fit in 64 bits. */
  lemma Pow10Table()
    ensures |POWERS_OF_10_64| == 20
    ensures forall i :: 0 <= i < 20 ==> POWERS_OF_10_64[i] == Pow(10, i)
  {
    hide Pow;
    Pow10Values();
  }

  /** A power of ten looked up in the table. */
  function PowerOf10(i: nat): (p: int)
    requires i < 20
    ensures p == Pow(10, i)
  {
    Pow10Table();
    POWERS_OF_10_64[i]
  }

  lemma Pow10Step(i: nat)
    ensures Pow(10, i + 1) == 10 * Pow(10, i) && Pow(10, 0) == 1
  {
  }

  /** The powers of two at which the logarithm estimate changes. */
  lemma Pow2Thresholds()
    ensures Pow(2, 0) == 0x1
    ensures Pow(2, 3) == 0x8
    ensures Pow(2, 6) == 0x40
    ensures Pow(2, 9) == 0x200
    ensures Pow(2, 13) == 0x2000
    ensures Pow(2, 16) == 0x10000
    ensures Pow(2, 19) == 0x80000
    ensures Pow(2, 23) == 0x800000
    ensures Pow(2, 26) == 0x4000000
    ensures Pow(2, 29) == 0x20000000
    ensures Pow(2, 33) == 0x200000000
    ensures Pow(2, 36) == 0x1000000000
    ensures Pow(2, 39) == 0x8000000000
    ensures Pow(2, 43) == 0x80000000000
    ensures Pow(2, 46) == 0x400000000000
    ensures Pow(2, 49) == 0x2000000000000
    ensures Pow(2, 53) == 0x20000000000000
    ensures Pow(2, 56) == 0x100000000000000
    ensures Pow(2, 59) == 0x800000000000000
    ensures Pow(2, 63) == 0x8000000000000000
    ensures Pow(2, 64) == 0x10000000000000000
  {
    hide Pow;
    Pow2Small();
    PowAdd(2, 3, 3);
    PowAdd(2, 6, 3);
    PowAdd(2, 9, 4);
    PowAdd(2, 13, 3);
    PowAdd(2, 16, 3);
    PowAdd(2, 19, 4);
    PowAdd(2, 23, 3);
    PowAdd(2, 26, 3);
    PowAdd(2, 29, 4);
    PowAdd(2, 33, 3);
    PowAdd(2, 36, 3);
    PowAdd(2, 39, 4);
    PowAdd(2, 43, 3);
    PowAdd(2, 46, 3);
    PowAdd(2, 49, 4);
    PowAdd(2, 53, 3);
    PowAdd(2, 56, 3);
    PowAdd(2, 59, 4);
    PowAdd(2, 63, 1);
  }

  /** (log2 + 1) * 1233 >> 12, for a number of m bits. */
  function LogEstimate(m: nat): nat {
    m * 1233 / 4096
  }

  /** The estimate is the decimal logarithm or one more. */
  lemma LogEstimateIsClose(n: nat, m: nat)
    requires 1 <= m <= 64 && Pow(2, m - 1) <= n < Pow(2, m)
    ensures LogEstimate(m) <= 19 && n < Pow(10, LogEstimate(m) + 1)
    ensures LogEstimate(m) > 0 ==> Pow(10, LogEstimate(m) - 1) <= n
  {
    hide Pow, LogEstimate;
    if m <= 33 { LogEstimateLow(n, m); } else { LogEstimateHigh(n, m); }
  }

  lemma LogEstimateLow(n: nat, m: nat)
    requires 1 <= m <= 33 && Pow(2, m - 1) <= n < Pow(2, m)
    ensures LogEstimate(m) <= 19 && n < Pow(10, LogEstimate(m) + 1)
    ensures LogEstimate(m) > 0 ==> Pow(10, LogEstimate(m) - 1) <= n
  {
    hide Pow, LogEstimate;
    Pow2Thresholds();
    Pow10Values();
    if m <= 3 {
      LogBetween(n, m, 0, 3, 0);
    } else if m <= 6 {
      LogBetween(n, m, 3, 6, 1);
    } else if m <= 9 {
      LogBetween(n, m, 6, 9, 2);
    } else if m <= 13 {
      LogBetween(n, m, 9, 13, 3);
    } else if m <= 16 {
      LogBetween(n, m, 13, 16, 4);
    } else if m <= 19 {
      LogBetween(n, m, 16, 19, 5);
    } else if m <= 23 {
      LogBetween(n, m, 19, 23, 6);
    } else if m <= 26 {
      LogBetween(n, m, 23, 26, 7);
    } else if m <= 29 {
      LogBetween(n, m, 26, 29, 8);
    } else {
      LogBetween(n, m, 29, 33, 9);
    }
  }

  lemma LogEstimateHigh(n: nat, m: nat)
    requires 33 < m <= 64 && Pow(2, m - 1) <= n < Pow(2, m)
    ensures LogEstimate(m) <= 19 && n < Pow(10, LogEstimate(m) + 1)
    ensures LogEstimate(m) > 0 ==> Pow(10, LogEstimate(m) - 1) <= n
  {
    hide Pow, LogEstimate;
    Pow2Thresholds();
    Pow10Values();
    if m <= 36 {
      LogBetween(n, m, 33, 36, 10);
    } else if m <= 39 {
      LogBetween(n, m, 36, 39, 11);
    } else if m <= 43 {
      LogBetween(n, m, 39, 43, 12);
    } else if m <= 46 {
      LogBetween(n, m, 43, 46, 13);
    } else if m <= 49 {
      LogBetween(n, m, 46, 49, 14);
    } else if m <= 53 {
      LogBetween(n, m, 49, 53, 15);
    } else if m <= 56 {
      LogBetween(n, m, 53, 56, 16);
    } else if m <= 59 {
      LogBetween(n, m, 56, 59, 17);
    } else if m <= 63 {
      LogBetween(n, m, 59, 63, 18);
    } else {
      LogBetween(n, m, 63, 64, 19);
    }
  }

  /** Between two thresholds the estimate is `t`, and the powers of ten around it fit. */
  lemma LogBetween(n: nat, m: nat, lo: nat, hi: nat, t: nat)
    requires lo < m <= hi && Pow(2, m - 1) <= n < Pow(2, m)
    requires 4096 * t <= (lo + 1) * 1233 && hi * 1233 < 4096 * (t + 1)
    requires (t > 0 ==> Pow(10, t - 1) <= Pow(2, lo)) && Pow(2, hi) <= Pow(10, t + 1)
    ensures LogEstimate(m) == t && n < Pow(10, t + 1) && (t > 0 ==> Pow(10, t - 1) <= n)
  {
    hide Pow;
    PowMonotone(2, lo, m - 1);
    PowMonotone(2, m, hi);
  }

  /** `count_digits` in base ten, for words of up to 64 bits. */
  function CountDigits(n: nat): nat
    requires n < TWO64
  {
    var x := if n == 0 then 1 else n;
    EstimateInTable(x);
    var t := LogEstimate(Msb(x) + 1);
    var integerLog10 := (t - (if n < PowerOf10(t) then 1 else 0)) % TWO32;
    (integerLog10 + 1) % TWO32
  }

  lemma EstimateInTable(x: nat)
    requires 0 < x < TWO64
    ensures LogEstimate(Msb(x) + 1) <= 19
  {
    hide Pow, LogEstimate;
    MsbBelow64(x);
    LogEstimateIsClose(x, Msb(x) + 1);
  }

  /**
  The count is exact for every number but zero, for which the correction of the
  estimate wraps around and leaves no digits.
   */
  lemma CountDigitsExact(n: nat)
    requires n < TWO64
    ensures n > 0 ==> 1 <= CountDigits(n) <= 20 && Pow(10, CountDigits(n) - 1) <= n < Pow(10, CountDigits(n))
    ensures CountDigits(0) == 0
  {
    hide Pow, LogEstimate, Msb, PowerOf10;
    CountOfZero();
    if n > 0 {
      MsbBelow64(n);
      LogEstimateIsClose(n, Msb(n) + 1);
      EstimateInTable(n);
      Pow10Step(0);
      var t := LogEstimate(Msb(n) + 1);
      assert PowerOf10(t) == Pow(10, t);
      SmallSum(t, if n < Pow(10, t) then 1 else 0);
    }
  }

  lemma SmallSum(t: nat, c: nat)
    requires c <= 1 && t <= 19 && t + 1 > c
    ensures ((t - c) % TWO32 + 1) % TWO32 == t - c + 1
  {
  }

  lemma CountOfZero()
    ensures CountDigits(0) == 0
  {
    EstimateInTable(1);
    Pow10Step(0);
    assert (-1) % TWO32 == TWO32 - 1;
  }

  lemma MsbBelow64(x: nat)
    requires 0 < x < TWO64
    ensures Msb(x) < 64
  {
    hide Pow;
    Pow2Word();
    if Msb(x) >= 64 { PowMonotone(2, 64, Msb(x)); }
  }
}
