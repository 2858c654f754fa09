/**
Shifts of big integers (`include/lstd/big_integer.h`, lines 1079-1173). `x << k` and `x >> k`
on words are written as the product with and the quotient by `Pow(2, k)`, `x & (2^k - 1)` as the remainder.
 */
module BigShift {
  import opened Powers
  import opened IntegerDivision
  import opened BigDigits
  import opened BigIntegers
  import opened BigAddSub
  import opened BigMul

  lemma Pow2Digit()
    ensures Pow(2, SHIFT) == BASE
  {
    assert Pow(2, 10) == 1024;
    PowAdd(2, 10, 10);
    PowAdd(2, 20, 10);
  }

  /** A partial digit shift and its complement make a whole digit. */
  lemma Pow2Parts(r: nat)
    requires r < 30
    ensures Pow(2, r) * Pow(2, SHIFT - r) == BASE
    ensures 1 <= Pow(2, r) <= HALF_BASE && Pow(2, SHIFT - r) >= 2
  {
    hide Pow;
    PowAdd(2, r, SHIFT - r);
    Pow2Digit();
    PowMonotone(2, r, 29);
    PowMonotone(2, 1, SHIFT - r);
    assert Pow(2, 29) == HALF_BASE by { PowAdd(2, 1, 29); Pow2Small(); }
    Pow2Small();
    PowMonotone(2, 0, r);
  }

  /** Moving up by digits is multiplying by a power of two. */
  lemma {:induction false} LiftIsShift(v: int, n: nat)
    ensures Lift(v, n) == v * Pow(2, SHIFT * n)
  {
    if n > 0 {
      LiftIsShift(v, n - 1);
      PowAdd(2, SHIFT, SHIFT * (n - 1));
      Pow2Digit();
      MulSwap(v, BASE, Pow(2, SHIFT * (n - 1)));
    }
  }

  lemma ShiftInTwo(v: int, words: nat, r: nat)
    ensures Lift(v * Pow(2, r), words) == v * Pow(2, SHIFT * words + r)
  {
    hide Lift, Pow;
    LiftIsShift(v * Pow(2, r), words);
    PowAdd(2, r, SHIFT * words);
    MulAssoc(v, Pow(2, r), Pow(2, SHIFT * words));
  }

  /** The loop of `lshift`: z[ws..] receives x[..n] times 2^r, with the overflow in `accum`. */
  method ShiftLeftDigits(x: array<Digit>, n: nat, z: array<Digit>, ws: nat, r: nat) returns (accum: int)
    requires z != x && n <= x.Length && ws + n <= z.Length && r < SHIFT
    requires forall k :: 0 <= k < z.Length ==> z[k] == 0
    modifies z
    ensures 0 <= accum < Pow(2, r)
    ensures AddedTo(old(z[..]), z[..], ws, n, V(x[..n]) * Pow(2, r) - Lift(accum, n))
  {
    hide AddedTo, V, Lift, Pow;
    ghost var s, xs := z[..], x[..n];
    var m := Pow(2, r);
    Pow2Parts(r);
    accum := 0;
    AddedNone(s, ws);
    var j := 0;
    while j < n
      invariant 0 <= j <= n && 0 <= accum < m
      invariant AddedTo(s, z[..], ws, j, V(xs[..j]) * m - Lift(accum, j))
    {
      DigitProduct(x[j], m);
      var shifted: int := x[j] as int * m;
      AddedStep(s, z[..], ws, j, V(xs[..j]) * m - Lift(accum, j), accum + shifted,
                (accum + shifted) % BASE, (accum + shifted) / BASE);
      ShiftStep(xs, j, m, accum, shifted);
      accum := accum + shifted;
      assert accum < 0x1000_0000_0000_0000;
      z[ws + j] := accum % BASE;
      accum := accum / BASE;
      j := j + 1;
    }
    assert xs[..n] == xs;
  }

  lemma ShiftStep(xs: seq<Digit>, j: nat, m: int, accum: int, shifted: int)
    requires j < |xs| && shifted == xs[j] as int * m
    ensures V(xs[..j]) * m - Lift(accum, j) + Lift(accum + shifted, j) == V(xs[..j + 1]) * m
  {
    hide V, Lift;
    VPrefix(xs, j);
    LiftAdd(accum, shifted, j);
    LiftMul(m, xs[j], j);
    Distribute(m, V(xs[..j]), Lift(xs[j], j));
  }

  /** `lshift`: multiplication by 2^n. A shift by zero hands back the operand's own buffer. */
  method LShift(lhs: BigInteger, n: nat) returns (result: BigInteger)
    requires lhs.Valid() && lhs.Normalized()
    ensures fresh(result) && result.Valid() && result.Normalized()
    ensures n > 0 || lhs.Compact() ==> result.Compact()
    ensures fresh(result.Digits) || (n == 0 && lhs.Heap && result.Digits == lhs.Digits)
    ensures n == 0 && lhs.Heap ==> result.Digits == lhs.Digits
    ensures n == 0 ==> result.Size == lhs.Size && result.Heap == lhs.Heap && result.Mag() == lhs.Mag()
    ensures n == 0 ==> result.Allocated == lhs.Allocated
    ensures result.Value() == lhs.Value() * Pow(2, n)
    ensures result.Magnitude() == lhs.Magnitude() * Pow(2, n)
    ensures (lhs.Size < 0 <==> result.Size < 0) && (lhs.Size > 0 <==> result.Size > 0)
  {
    hide V, Lift, Pow, AddedTo;
    if n == 0 {
      Pow2Small();
      result := new BigInteger.CopyOf(lhs);
      assert result.Mag() == lhs.Mag();
      return;
    }
    MagnitudeBounds(lhs);
    if lhs.Size == 0 {
      result := MakeBig(0);
      MagnitudeBounds(result);
      return;
    }
    result := LShiftNonzero(lhs, n);
    ShiftSigns(lhs.Magnitude(), n);
  }

  /** `lshift` of a nonzero number by a nonzero amount. */
  method LShiftNonzero(lhs: BigInteger, n: nat) returns (result: BigInteger)
    requires lhs.Valid() && lhs.Size != 0 && n > 0
    ensures fresh(result) && result.Valid() && result.Normalized() && result.Compact() && fresh(result.Digits)
    ensures result.Magnitude() == lhs.Magnitude() * Pow(2, n)
    ensures result.Heap ==> result.Allocated == lhs.Len() + (n + SHIFT - 1) / SHIFT
    ensures (result.Size < 0 ==> lhs.Size < 0) && (result.Size > 0 ==> lhs.Size > 0)
    ensures result.Magnitude() == 0 <==> result.Size == 0
  {
    hide V, Lift, Pow, AddedTo, Trimmed;
    var wordshift, remshift := n / SHIFT, n % SHIFT;
    var oldSize := lhs.Len();
    var newSize := oldSize + wordshift + (if remshift != 0 then 1 else 0);
    result := new BigInteger.WithRoom(newSize);
    result.Size := if lhs.Size < 0 then -newSize else newSize;
    ghost var s := result.Digits[..];
    var accum := ShiftLeftDigits(lhs.Digits, oldSize, result.Digits, wordshift, remshift);
    ShiftDone(s, result.Digits[..], lhs.Mag(), wordshift, remshift, accum, newSize);
    if remshift != 0 {
      result.Digits[newSize - 1] := accum;
    }
    assert result.Mag() == result.Digits[..][..newSize];
    assert n == SHIFT * wordshift + remshift;
    result.Normalize();
  }

  /** The digits and the overflow of the loop together are the shifted number. */
  lemma ShiftDone(s: seq<Digit>, t: seq<Digit>, xs: seq<Digit>, ws: nat, r: nat, accum: int, newSize: nat)
    requires r < SHIFT && 0 <= accum < Pow(2, r) && newSize == ws + |xs| + (if r != 0 then 1 else 0) <= |s|
    requires forall k :: 0 <= k < |s| ==> s[k] == 0
    requires AddedTo(s, t, ws, |xs|, V(xs) * Pow(2, r) - Lift(accum, |xs|))
    ensures |t| == |s| && accum < BASE
    ensures V((if r != 0 then t[newSize - 1 := accum] else t)[..newSize]) == V(xs) * Pow(2, SHIFT * ws + r)
  {
    hide AddedTo, V, Lift, Pow;
    var sum := V(xs) * Pow(2, r);
    Pow2Parts(r);
    Pow2Small();
    VZero(s[..newSize]);
    ShiftInTwo(V(xs), ws, r);
    AddedAbove(s, t, ws, |xs|, sum - Lift(accum, |xs|));
    if r != 0 {
      AddedStep(s, t, ws, |xs|, sum - Lift(accum, |xs|), accum, accum, 0);
      LiftZero(|xs| + 1);
      AddedWhole(s, t[newSize - 1 := accum], ws, |xs| + 1, newSize, sum);
    } else {
      LiftZero(|xs|);
      AddedWhole(s, t, ws, |xs|, newSize, sum);
    }
  }

  lemma ShiftSigns(v: int, n: nat)
    requires v >= 0
    ensures v * Pow(2, n) >= 0 && (-v) * Pow(2, n) == -(v * Pow(2, n))
    ensures v > 0 ==> v * Pow(2, n) > 0
  {
    MulMono(0, v, Pow(2, n));
  }

  /** The digit of `rshift`: the high part of one digit and the low part of the next. */
  function RShiftDigit(low: Digit, next: int, r: nat): int
    requires r < 30
  {
    var h := Pow(2, SHIFT - r);
    var w := (next * h) % TWO32;
    (low / Pow(2, r)) % h + (w % BASE - w % h)
  }

  lemma RShiftDigitMeaning(low: Digit, next: Digit, r: nat)
    requires r < 30
    ensures var d, m := RShiftDigit(low, next, r), Pow(2, r);
      0 <= d < BASE && m * d == low - low % m + BASE * (next % m)
  {
    hide Pow;
    var m, h := Pow(2, r), Pow(2, SHIFT - r);
    Pow2Parts(r);
    var t, q := next % m, next / m;
    DivModLaw(next, m);
    DivModLaw(low, m);
    HighPart(next, m, h, q, t);
    Combine(low, low / m, low % m, m, h, t);
    DivModUnique(low / m, h, 0, low / m);
  }

  lemma Combine(low: int, a: int, b: int, m: int, h: int, t: int)
    requires 0 < m && 0 < h && m * h == BASE
    requires 0 <= low < BASE && low == a * m + b && 0 <= b < m && 0 <= t < m
    ensures 0 <= a < h && 0 <= a + t * h < BASE
    ensures m * (a + t * h) == low - b + BASE * t
  {
    if a >= h {
      MulMono(h, a, m);
    } else if a < 0 {
      MulMono(a, -1, m);
    }
    MulMono(t + 1, m, h);
    MulMono(0, t, h);
    Distribute(h, t, 1);
    Distribute(m, a, t * h);
    MulSwap(m, t, h);
  }

  /** The bits of `next` that move into the digit: its low part, moved up by `h`. */
  lemma HighPart(next: int, m: int, h: int, q: int, t: int)
    requires m > 0 && h > 0 && m * h == BASE
    requires 0 <= next < BASE && next == q * m + t && 0 <= t < m
    ensures var w := (next * h) % TWO32; w % BASE - w % h == t * h
  {
    var w, k := (next * h) % TWO32, (next * h) / TWO32;
    assert next * h == q * BASE + t * h by {
      Distribute(h, q * m, t);
      MulAssoc(q, m, h);
    }
    MulMono(t + 1, m, h);
    Distribute(h, t, 1);
    MulMono(0, t, h);
    var th := t * h;
    assert w == (q - 4 * k) * BASE + th;
    DivModUnique(w, BASE, q - 4 * k, th);
    assert w == ((q - 4 * k) * m + t) * h + 0 by {
      Distribute(h, (q - 4 * k) * m, t);
      MulAssoc(q - 4 * k, m, h);
    }
    DivModUnique(w, h, (q - 4 * k) * m + t, 0);
  }

  /** The loop of `rshift`: z[..n] receives the n digits of `x` from `ws`, divided by 2^r. */
  method ShiftRightDigits(x: array<Digit>, ws: nat, n: nat, z: array<Digit>, r: nat)
    requires z != x && 0 < n && ws + n <= x.Length && n <= z.Length && r < SHIFT
    modifies z
    ensures V(z[..n]) == V(x[ws..ws + n]) / Pow(2, r)
  {
    hide V, Lift, Pow, RShiftDigit;
    ghost var e, m := x[ws..ws + n], Pow(2, r);
    var i := 0;
    RShiftStart(e, m);
    assert z[..0] == [];
    while i < n
      invariant 0 <= i <= n
      invariant m * V(z[..i]) == V(e[..i]) - e[0] % m + Lift(if i < n then e[i] % m else 0, i)
    {
      var next: int := if i + 1 < n then x[ws + i + 1] else 0;
      RShiftDigitMeaning(x[ws + i], next, r);
      ghost var done := z[..i];
      z[i] := RShiftDigit(x[ws + i], next, r);
      assert z[..i + 1][..i] == done;
      RShiftStep(z[..i + 1], e, i, m);
      i := i + 1;
    }
    assert e[..n] == e;
    LiftZero(n);
    Pow2Parts(r);
    DivModLaw(e[0], m);
    DivModUnique(V(e), m, V(z[..n]), e[0] % m);
  }

  lemma RShiftStart(e: seq<Digit>, m: int)
    requires |e| > 0 && m > 0
    ensures m * V([]) == V(e[..0]) - e[0] % m + Lift(e[0] % m, 0)
  {
  }

  lemma RShiftStep(z: seq<Digit>, e: seq<Digit>, i: nat, m: int)
    requires |z| == i + 1 && i < |e| && m > 0
    requires var tail := if i + 1 < |e| then e[i + 1] % m else 0;
      m * z[i] == e[i] - e[i] % m + BASE * tail
    requires m * V(z[..i]) == V(e[..i]) - e[0] % m + Lift(e[i] % m, i)
    ensures m * V(z) == V(e[..i + 1]) - e[0] % m + Lift(if i + 1 < |e| then e[i + 1] % m else 0, i + 1)
  {
    hide V, Lift;
    var tail := if i + 1 < |e| then e[i + 1] % m else 0;
    VPush(z[..i], z[i]);
    assert z[..i] + [z[i]] == z;
    VPrefix(e, i);
    Distribute(m, V(z[..i]), Lift(z[i], i));
    LiftMul(m, z[i], i);
    LiftAdd(e[i] - e[i] % m, BASE * tail, i);
    LiftAdd(e[i], e[i] % m, i);
    LiftBase(tail, i);
  }

  /** Division by digits first and by the rest of the shift after it. */
  lemma RShiftInTwo(s: seq<Digit>, ws: nat, r: nat)
    requires r < 30
    ensures V(s) / Pow(2, SHIFT * ws + r) == (if ws < |s| then V(s[ws..]) / Pow(2, r) else 0)
  {
    hide V, Lift, Pow;
    var m, p := Pow(2, r), Pow(2, SHIFT * ws);
    PowAdd(2, SHIFT * ws, r);
    VBound(s);
    if ws < |s| {
      VSplit(s, ws);
      VBound(s[..ws]);
      LiftIsShift(V(s[ws..]), ws);
      LiftIsShift(1, ws);
      var q, t := V(s[ws..]) / m, V(s[ws..]) % m;
      DivModLaw(V(s[ws..]), m);
      InTwo(V(s[..ws]), p, q, m, t);
      DivModUnique(V(s), p * m, q, V(s[..ws]) + t * p);
    } else {
      PMonotone(|s|, ws);
      LiftIsShift(1, ws);
      MulMono(1, m, p);
      DivModUnique(V(s), p * m, 0, V(s));
    }
  }

  lemma InTwo(low: int, p: int, q: int, m: int, t: int)
    requires 0 <= low < p && 0 <= t < m
    ensures low + (q * m + t) * p == q * (p * m) + (low + t * p)
    ensures 0 <= low + t * p < p * m
  {
    Distribute(p, q * m, t);
    MulAssoc(q, m, p);
    MulMono(t + 1, m, p);
    Distribute(p, t, 1);
    MulMono(0, t, p);
  }

  /** `rshift` of a non-negative number: the quotient by 2^n. */
  method RShiftNonNegative(lhs: BigInteger, n: nat) returns (result: BigInteger)
    requires lhs.Valid() && lhs.Size >= 0
    ensures fresh(result) && result.Valid() && result.Size >= 0
    ensures fresh(result.Digits) || (n == 0 && lhs.Heap && result.Digits == lhs.Digits)
    ensures n == 0 ==> result.Heap == lhs.Heap && (lhs.Heap ==> result.Digits == lhs.Digits)
    ensures n == 0 ==> result.Size == lhs.Size && result.Mag() == lhs.Mag() && result.Allocated == lhs.Allocated
    ensures n > 0 || lhs.Normalized() ==> result.Normalized()
    ensures n > 0 || lhs.Compact() ==> result.Compact()
    ensures n > 0 && result.Heap ==> result.Allocated == lhs.Size - n / SHIFT
    ensures result.Magnitude() == lhs.Magnitude() / Pow(2, n)
  {
    hide V, Lift, Pow, RShiftDigit;
    if n == 0 {
      Pow2Small();
      result := new BigInteger.CopyOf(lhs);
      assert result.Mag() == lhs.Mag();
      DivModUnique(lhs.Magnitude(), Pow(2, n), lhs.Magnitude(), 0);
      return;
    }
    var wordshift, remshift := n / SHIFT, n % SHIFT;
    assert n == SHIFT * wordshift + remshift;
    RShiftInTwo(lhs.Mag(), wordshift, remshift);
    var newSize := lhs.Size - wordshift;
    if newSize <= 0 {
      result := MakeBig(0);
      return;
    }
    result := new BigInteger.WithRoom(newSize);
    result.Size := newSize;
    ShiftRightDigits(lhs.Digits, wordshift, newSize, result.Digits, remshift);
    assert lhs.Mag()[wordshift..] == lhs.Digits[wordshift..wordshift + newSize];
    assert result.Mag() == result.Digits[..newSize];
    result.Normalize();
  }

  /** The size of `invert(b)`: `add_one` counts the magnitude of any number up, and `invert` negates. */
  function InvertedSize(size: int, carry: bool): (r: int)
    ensures r < 0 && Abs(r) - Abs(size) == if size == 0 || carry then 1 else 0
  {
    -(if size == 0 then 1 else Abs(size) + if carry then 1 else 0)
  }

  /** Whether `rshift` of a number of that size returns within as many nested calls as there are
      carries. */
  predicate ReturnsWithin(size: int, n: nat, carries: seq<bool>)
    decreases carries
  {
    n == 0 || size >= 0 || (carries != [] && ReturnsWithin(InvertedSize(size, carries[0]), n, carries[1..]))
  }

  /** Inverting a negative number gives a negative one, so `rshift` calls itself at every depth. */
  lemma {:induction false} NestedStaysNegative(size: int, n: nat, carries: seq<bool>)
    ensures ReturnsWithin(size, n, carries) <==> n == 0 || size >= 0
    decreases carries
  {
    if carries != [] {
      NestedStaysNegative(InvertedSize(size, carries[0]), n, carries[1..]);
    }
  }

  datatype ShiftOutcome = NeverReturns | Returned(Number: BigInteger)

  /** `rshift` gives the flooring quotient by 2^n exactly when the number is not negative or `n`
      is zero; otherwise it calls itself without end. */
  method RShift(lhs: BigInteger, n: nat) returns (outcome: ShiftOutcome)
    requires lhs.Valid()
    ensures outcome.NeverReturns? <==> n > 0 && lhs.Size < 0
    ensures outcome.NeverReturns? <==> forall carries :: !ReturnsWithin(lhs.Size, n, carries)
    ensures outcome.Returned? ==> outcome.Number.Valid() && outcome.Number.Value() == lhs.Value() / Pow(2, n)
    ensures outcome.Returned? && (n > 0 || lhs.Normalized()) ==> outcome.Number.Normalized()
    ensures outcome.Returned? && (n > 0 || lhs.Compact()) ==> outcome.Number.Compact()
    ensures outcome.Returned? ==>
      && fresh(outcome.Number)
      && if n == 0 && lhs.Heap then outcome.Number.Digits == lhs.Digits else fresh(outcome.Number.Digits)
  {
    hide V, Pow, ReturnsWithin;
    forall carries ensures ReturnsWithin(lhs.Size, n, carries) <==> n == 0 || lhs.Size >= 0 {
      NestedStaysNegative(lhs.Size, n, carries);
    }
    NestedStaysNegative(lhs.Size, n, []);
    if n > 0 && lhs.Size < 0 {
      return NeverReturns;
    }
    var result;
    if n == 0 {
      Pow2Small();
      result := new BigInteger.CopyOf(lhs);
      assert result.Mag() == lhs.Mag();
      DivModUnique(lhs.Value(), Pow(2, n), lhs.Value(), 0);
    } else {
      result := RShiftNonNegative(lhs, n);
    }
    outcome := Returned(result);
  }
}
