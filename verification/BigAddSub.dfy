/**
Carry and borrow loops, and addition and subtraction of magnitudes
(`include/lstd/big_integer.h`, lines 326-473).
 */
module BigAddSub {
  import opened Powers
  import opened BigDigits
  import opened BigIntegers

  /** The digit and the borrow the code extracts from a wrapped `u32` difference. */
  function BorrowDigit(t: int): (d: Digit) {
    (t % TWO32) % BASE
  }

  function BorrowOut(t: int): (b: int)
    ensures 0 <= b <= 1
  {
    ((t % TWO32) / BASE) % 2
  }

  /** The wrapped difference yields the digit modulo BASE and the sign bit. */
  lemma BorrowParts(t: int)
    requires -BASE <= t < BASE
    ensures t == BorrowDigit(t) - BASE * BorrowOut(t)
  {
    if t < 0 { assert t % TWO32 == t + TWO32; }
  }

  /** `x` is `s` with the window of `i` digits from `xo` increased by `sum`. */
  ghost predicate AddedTo(s: seq<Digit>, x: seq<Digit>, xo: nat, i: nat, sum: int) {
    && xo + i <= |x| == |s|
    && x[..xo] == s[..xo] && x[xo + i..] == s[xo + i..]
    && V(x[xo..xo + i]) == V(s[xo..xo + i]) + sum
  }

  /** Nothing added yet. */
  lemma AddedNone(s: seq<Digit>, xo: nat)
    requires xo <= |s|
    ensures AddedTo(s, s, xo, 0, 0) && Lift(0, 0) == 0
    ensures forall t: seq<Digit> {:trigger V(t[..0])} :: V(t[..0]) == 0
  {
  }

  /** One column: add `delta` to the window's next digit, leaving digit `d` and carry `c`. */
  lemma AddedStep(s: seq<Digit>, x: seq<Digit>, xo: nat, i: nat, sum: int, delta: int, d: Digit, c: int)
    requires xo + i < |s| && AddedTo(s, x, xo, i, sum)
    requires s[xo + i] as int + delta == d as int + BASE * c
    ensures AddedTo(s, x[xo + i := d], xo, i + 1, sum + Lift(delta, i) - Lift(c, i + 1))
  {
    var x' := x[xo + i := d];
    VWindow(s, xo, i);
    VWindow(x', xo, i);
    assert x'[xo..xo + i] == x[xo..xo + i] && x'[..xo] == x[..xo];
    assert x'[xo + i + 1..] == x[xo + i..][1..] == s[xo + i + 1..];
    assert x[xo + i] == x[xo + i..][0] == s[xo + i];
    LiftAdd(x[xo + i], delta, i);
    LiftAdd(d, BASE * c, i);
    LiftBase(c, i);
  }

  /** The digit above the window is still the original one. */
  lemma AddedNext(s: seq<Digit>, x: seq<Digit>, xo: nat, i: nat, sum: int)
    requires xo + i < |s| && AddedTo(s, x, xo, i, sum)
    ensures x[xo + i] == s[xo + i]
  {
    assert x[xo + i] == x[xo + i..][0] == s[xo + i..][0];
  }

  /** A window whose upper digits did not change, widened to take them in. */
  lemma AddedWiden(s: seq<Digit>, x: seq<Digit>, xo: nat, i: nat, m: nat, sum: int)
    requires i <= m && xo + m <= |s| && AddedTo(s, x, xo, i, sum)
    ensures AddedTo(s, x, xo, m, sum)
  {
    hide V, Lift;
    WindowParts(x, xo, i, m);
    WindowParts(s, xo, i, m);
  }

  /** A window cut at `i`, and what is above it, in terms of the digits from the cut on. */
  lemma WindowParts(x: seq<Digit>, xo: nat, i: nat, m: nat)
    requires i <= m && xo + m <= |x|
    ensures V(x[xo..xo + m]) == V(x[xo..xo + i]) + Lift(V(x[xo + i..][..m - i]), i)
    ensures x[xo + m..] == x[xo + i..][m - i..]
  {
    hide V, Lift;
    var w := x[xo..xo + m];
    assert w[..i] == x[xo..xo + i];
    assert w[i..] == x[xo + i..xo + m];
    assert x[xo + i..][..m - i] == x[xo + i..xo + m];
    VSplit(w, i);
  }

  /**
  `v_iadd`: add y[..n] into the window x[xo..xo + m]; the carry out of the window
  is returned. A window at the start of `y` itself may be added to, because each digit
  is read before it is written.
   */
  method VIAdd(x: array<Digit>, xo: nat, m: nat, y: array<Digit>, n: nat) returns (carry: int)
    requires (x != y || xo == 0) && n <= m && xo + m <= x.Length && n <= y.Length
    modifies x
    ensures 0 <= carry <= 1
    ensures AddedTo(old(x[..]), x[..], xo, m, old(V(y[..n])) - Lift(carry, m))
  {
    hide AddedTo, V, Lift;
    ghost var s, ys := x[..], y[..n];
    carry := 0;
    var i := 0;
    AddedNone(s, xo);
    while i < n
      invariant 0 <= i <= n && 0 <= carry <= 1
      invariant forall k :: i <= k < n ==> y[k] == ys[k]
      invariant AddedTo(s, x[..], xo, i, V(ys[..i]) - Lift(carry, i))
    {
      var sum: int := carry + x[xo + i] as int + y[i] as int;
      AddedNext(s, x[..], xo, i, V(ys[..i]) - Lift(carry, i));
      AddedStep(s, x[..], xo, i, V(ys[..i]) - Lift(carry, i), carry + ys[i], sum % BASE, sum / BASE);
      VPrefix(ys, i);
      LiftAdd(carry, ys[i], i);
      x[xo + i] := sum % BASE;
      carry := sum / BASE;
      i := i + 1;
    }
    assert ys[..n] == ys;
    while carry != 0 && i < m
      invariant n <= i <= m && 0 <= carry <= 1
      invariant AddedTo(s, x[..], xo, i, V(ys) - Lift(carry, i))
    {
      var sum := carry + x[xo + i];
      AddedNext(s, x[..], xo, i, V(ys) - Lift(carry, i));
      AddedStep(s, x[..], xo, i, V(ys) - Lift(carry, i), carry, sum % BASE, sum / BASE);
      x[xo + i] := sum % BASE;
      carry := sum / BASE;
      i := i + 1;
    }
    if carry == 0 { LiftZero(i); LiftZero(m); }
    AddedWiden(s, x[..], xo, i, m, V(ys) - Lift(carry, i));
  }

  /** One column of a window that loses the digit `d` and a borrow. */
  lemma BorrowColumn(s: seq<Digit>, x: seq<Digit>, xo: nat, i: nat, d: Digit, y: int, borrow: int, t: int)
    requires xo + i < |s| && 0 <= borrow <= 1 && AddedTo(s, x, xo, i, Lift(borrow, i) - y)
    requires t == x[xo + i] as int - d - borrow
    ensures AddedTo(s, x[xo + i := BorrowDigit(t)], xo, i + 1, Lift(BorrowOut(t), i + 1) - (y + Lift(d, i)))
  {
    AddedNext(s, x, xo, i, Lift(borrow, i) - y);
    BorrowParts(t);
    hide AddedTo, Lift, BorrowDigit, BorrowOut;
    AddedStep(s, x, xo, i, Lift(borrow, i) - y, -(d as int) - borrow, BorrowDigit(t), -BorrowOut(t));
    LiftNeg(d as int + borrow, i);
    LiftAdd(d, borrow, i);
    LiftNeg(BorrowOut(t), i + 1);
  }

  /**
  `v_isub`: subtract y[..n] from the window x[xo..xo + m]; the borrow out of the
  window is returned.
   */
  method VISub(x: array<Digit>, xo: nat, m: nat, y: array<Digit>, n: nat) returns (borrow: int)
    requires x != y && n <= m && xo + m <= x.Length && n <= y.Length
    modifies x
    ensures 0 <= borrow <= 1
    ensures AddedTo(old(x[..]), x[..], xo, m, Lift(borrow, m) - V(y[..n]))
  {
    hide AddedTo, V, Lift, BorrowDigit, BorrowOut;
    ghost var s, ys := x[..], y[..n];
    borrow := 0;
    var i := 0;
    AddedNone(s, xo);
    while i < n
      invariant 0 <= i <= n && 0 <= borrow <= 1
      invariant AddedTo(s, x[..], xo, i, Lift(borrow, i) - V(ys[..i]))
    {
      var t: int := x[xo + i] as int - y[i] as int - borrow;
      BorrowColumn(s, x[..], xo, i, ys[i], V(ys[..i]), borrow, t);
      VPrefix(ys, i);
      x[xo + i] := BorrowDigit(t);
      borrow := BorrowOut(t);
      i := i + 1;
    }
    assert ys[..n] == ys;
    while borrow != 0 && i < m
      invariant n <= i <= m && 0 <= borrow <= 1
      invariant AddedTo(s, x[..], xo, i, Lift(borrow, i) - V(ys))
    {
      var t: int := x[xo + i] as int - borrow;
      BorrowColumn(s, x[..], xo, i, 0, V(ys), borrow, t);
      LiftZero(i);
      x[xo + i] := BorrowDigit(t);
      borrow := BorrowOut(t);
      i := i + 1;
    }
    if borrow == 0 { LiftZero(i); LiftZero(m); }
    AddedWiden(s, x[..], xo, i, m, Lift(borrow, i) - V(ys));
  }

  /** One column of an addition. */
  lemma AddColumn(s: seq<Digit>, z: seq<Digit>, i: nat, xs: seq<Digit>, ys: seq<Digit>, carry: int, sum: int)
    requires i < |s| && i < |xs| && i < |ys| && s[i] == 0
    requires AddedTo(s, z, 0, i, V(xs[..i]) + V(ys[..i]) - Lift(carry, i))
    requires sum == carry + xs[i] as int + ys[i] as int
    ensures AddedTo(s, z[i := sum % BASE], 0, i + 1,
      V(xs[..i + 1]) + V(ys[..i + 1]) - Lift(sum / BASE, i + 1))
  {
    hide AddedTo, V, Lift;
    AddedStep(s, z, 0, i, V(xs[..i]) + V(ys[..i]) - Lift(carry, i), sum, sum % BASE, sum / BASE);
    VPrefix(xs, i);
    VPrefix(ys, i);
    LiftAdd(carry, xs[i] as int + ys[i], i);
    LiftAdd(xs[i], ys[i], i);
  }

  /** One column of an addition past the end of the shorter operand. */
  lemma AddColumnAlone(s: seq<Digit>, z: seq<Digit>, i: nat, xs: seq<Digit>, y: int, carry: int, sum: int)
    requires i < |s| && i < |xs| && s[i] == 0
    requires AddedTo(s, z, 0, i, V(xs[..i]) + y - Lift(carry, i)) && sum == carry + xs[i] as int
    ensures AddedTo(s, z[i := sum % BASE], 0, i + 1, V(xs[..i + 1]) + y - Lift(sum / BASE, i + 1))
  {
    hide AddedTo, V, Lift;
    AddedStep(s, z, 0, i, V(xs[..i]) + y - Lift(carry, i), sum, sum % BASE, sum / BASE);
    VPrefix(xs, i);
    LiftAdd(carry, xs[i], i);
  }

  /** The carry loops of `x_add`: z[..sizea + 1] receives the sum of x[..sizea] and y[..sizeb]. */
  method AddDigits(x: array<Digit>, sizea: nat, y: array<Digit>, sizeb: nat, z: array<Digit>)
    requires z != x && z != y
    requires sizeb <= sizea <= x.Length && sizeb <= y.Length && sizea < z.Length
    requires forall k :: 0 <= k < z.Length ==> z[k] == 0
    modifies z
    ensures V(z[..sizea + 1]) == V(x[..sizea]) + V(y[..sizeb])
  {
    hide AddedTo, V, Lift;
    ghost var s, xs, ys := z[..], x[..sizea], y[..sizeb];
    var carry := 0;
    var i := 0;
    AddedNone(s, 0);
    while i < sizeb
      invariant 0 <= i <= sizeb && 0 <= carry <= 1
      invariant AddedTo(s, z[..], 0, i, V(xs[..i]) + V(ys[..i]) - Lift(carry, i))
    {
      var sum: int := carry + x[i] as int + y[i] as int;
      AddColumn(s, z[..], i, xs, ys, carry, sum);
      z[i] := sum % BASE;
      carry := sum / BASE;
      i := i + 1;
    }
    assert ys[..sizeb] == ys;
    while i < sizea
      invariant sizeb <= i <= sizea && 0 <= carry <= 1
      invariant AddedTo(s, z[..], 0, i, V(xs[..i]) + V(ys) - Lift(carry, i))
    {
      var sum: int := carry + x[i] as int;
      AddColumnAlone(s, z[..], i, xs, V(ys), carry, sum);
      z[i] := sum % BASE;
      carry := sum / BASE;
      i := i + 1;
    }
    assert xs[..sizea] == xs;
    AddedStep(s, z[..], 0, i, V(xs) + V(ys) - Lift(carry, i), carry, carry, 0);
    LiftZero(i + 1);
    z[i] := carry;
    AddedToZero(s, z[..], i + 1, V(xs) + V(ys));
    assert z[..sizea + 1] == z[..][..i + 1];
  }

  /** Adding to a zero vector gives the addend. */
  lemma AddedToZero(s: seq<Digit>, x: seq<Digit>, i: nat, sum: int)
    requires AddedTo(s, x, 0, i, sum)
    requires forall k :: 0 <= k < |s| ==> s[k] == 0
    ensures V(x[..i]) == sum
  {
    VZero(s[0..i]);
    assert x[0..i] == x[..i];
  }

  /** One column of a subtraction. */
  lemma SubColumn(s: seq<Digit>, z: seq<Digit>, i: nat, xs: seq<Digit>, ys: seq<Digit>, borrow: int, t: int)
    requires i < |s| && i < |xs| && i < |ys| && s[i] == 0 && 0 <= borrow <= 1
    requires AddedTo(s, z, 0, i, V(xs[..i]) - V(ys[..i]) + Lift(borrow, i))
    requires t == xs[i] as int - ys[i] as int - borrow
    ensures AddedTo(s, z[i := BorrowDigit(t)], 0, i + 1,
      V(xs[..i + 1]) - V(ys[..i + 1]) + Lift(BorrowOut(t), i + 1))
  {
    BorrowParts(t);
    hide AddedTo, V, Lift, BorrowDigit, BorrowOut;
    AddedStep(s, z, 0, i, V(xs[..i]) - V(ys[..i]) + Lift(borrow, i), t, BorrowDigit(t), -BorrowOut(t));
    VPrefix(xs, i);
    VPrefix(ys, i);
    LiftAdd(xs[i] as int - ys[i] as int, borrow, i);
    LiftAdd(xs[i], ys[i], i);
    LiftNeg(BorrowOut(t), i + 1);
  }

  /** One column of a subtraction past the end of the shorter operand. */
  lemma SubColumnAlone(s: seq<Digit>, z: seq<Digit>, i: nat, xs: seq<Digit>, y: int, borrow: int, t: int)
    requires i < |s| && i < |xs| && s[i] == 0 && 0 <= borrow <= 1
    requires AddedTo(s, z, 0, i, V(xs[..i]) - y + Lift(borrow, i)) && t == xs[i] as int - borrow
    ensures AddedTo(s, z[i := BorrowDigit(t)], 0, i + 1, V(xs[..i + 1]) - y + Lift(BorrowOut(t), i + 1))
  {
    BorrowParts(t);
    hide AddedTo, V, Lift, BorrowDigit, BorrowOut;
    AddedStep(s, z, 0, i, V(xs[..i]) - y + Lift(borrow, i), t, BorrowDigit(t), -BorrowOut(t));
    VPrefix(xs, i);
    LiftAdd(xs[i], borrow, i);
    LiftNeg(BorrowOut(t), i + 1);
  }

  /** The borrow loops of `x_sub`: z[..sizea] receives the difference, and no borrow is left. */
  method SubDigits(x: array<Digit>, sizea: nat, y: array<Digit>, sizeb: nat, z: array<Digit>)
    requires z != x && z != y
    requires sizeb <= sizea <= x.Length && sizeb <= y.Length && sizea <= z.Length
    requires forall k :: 0 <= k < z.Length ==> z[k] == 0
    requires V(x[..sizea]) >= V(y[..sizeb])
    modifies z
    ensures V(z[..sizea]) == V(x[..sizea]) - V(y[..sizeb])
  {
    hide AddedTo, V, Lift, BorrowDigit, BorrowOut;
    ghost var s, xs, ys := z[..], x[..sizea], y[..sizeb];
    var borrow := 0;
    var i := 0;
    AddedNone(s, 0);
    while i < sizeb
      invariant 0 <= i <= sizeb && 0 <= borrow <= 1
      invariant AddedTo(s, z[..], 0, i, V(xs[..i]) - V(ys[..i]) + Lift(borrow, i))
    {
      var t: int := x[i] as int - y[i] as int - borrow;
      SubColumn(s, z[..], i, xs, ys, borrow, t);
      z[i] := BorrowDigit(t);
      borrow := BorrowOut(t);
      i := i + 1;
    }
    assert ys[..sizeb] == ys;
    while i < sizea
      invariant sizeb <= i <= sizea && 0 <= borrow <= 1
      invariant AddedTo(s, z[..], 0, i, V(xs[..i]) - V(ys) + Lift(borrow, i))
    {
      var t: int := x[i] as int - borrow;
      SubColumnAlone(s, z[..], i, xs, V(ys), borrow, t);
      z[i] := BorrowDigit(t);
      borrow := BorrowOut(t);
      i := i + 1;
    }
    assert xs[..sizea] == xs;
    AddedToZero(s, z[..], i, V(xs) - V(ys) + Lift(borrow, i));
    assert z[..sizea] == z[..][..i];
    NoBorrow(z[..sizea], borrow, V(xs) - V(ys));
    assert borrow == 0;
  }

  lemma NoBorrow(z: seq<Digit>, borrow: nat, difference: nat)
    requires borrow <= 1 && V(z) == difference + Lift(borrow, |z|)
    ensures borrow == 0 && V(z) == difference
  {
    VBound(z);
    LiftZero(|z|);
  }

  /** `x_add`: the sum of the magnitudes. */
  method XAdd(lhs: BigInteger, rhs: BigInteger) returns (result: BigInteger)
    requires lhs.Valid() && rhs.Valid()
    ensures fresh(result) && result.Valid() && fresh(result.Digits) && result.Normalized() && result.Compact()
    ensures result.Size >= 0 && result.Len() <= Max(lhs.Len(), rhs.Len()) + 1
    ensures result.Heap ==> result.Allocated == Max(lhs.Len(), rhs.Len()) + 1
    ensures result.Magnitude() == lhs.Magnitude() + rhs.Magnitude()
  {
    hide V, Lift, Trimmed;
    var a, b := lhs, rhs;
    if a.Len() < b.Len() { a, b := b, a; }
    var sizea, sizeb := a.Len(), b.Len();
    result := new BigInteger.WithRoom(sizea + 1);
    AddDigits(a.Digits, sizea, b.Digits, sizeb, result.Digits);
    result.Size := sizea + 1;
    assert result.Mag() == result.Digits[..sizea + 1];
    result.Normalize();
  }

  function Max(x: int, y: int): int {
    if x < y then y else x
  }

  /** A vector with a larger top digit stands for a larger number. */
  lemma TopDigitDecides(s: seq<Digit>, t: seq<Digit>, i: nat)
    requires |s| == |t| && i < |s| && s[i] > t[i]
    requires forall k :: i < k < |s| ==> s[k] == t[k]
    ensures V(s) - V(t) == V(s[..i + 1]) - V(t[..i + 1]) > 0
  {
    hide V, Lift;
    VSplit(s, i + 1);
    VSplit(t, i + 1);
    assert s[i + 1..] == t[i + 1..];
    VPrefix(s, i);
    VPrefix(t, i);
    VBound(s[..i]);
    VBound(t[..i]);
    LiftMono(t[i] as int + 1, s[i], i);
    LiftAdd(t[i], 1, i);
  }

  /** The scan of `x_sub`: the highest position where two vectors of n digits differ, or -1. */
  method TopDifference(x: array<Digit>, y: array<Digit>, n: nat) returns (i: int)
    requires n <= x.Length && n <= y.Length
    ensures -1 <= i < n
    ensures i < 0 ==> x[..n] == y[..n]
    ensures 0 <= i ==> x[i] != y[i] && forall k :: i < k < n ==> x[k] == y[k]
    ensures 0 <= i && x[i] < y[i] ==> V(y[..n]) - V(x[..n]) == V(y[..i + 1]) - V(x[..i + 1]) > 0
    ensures 0 <= i && x[i] > y[i] ==> V(x[..n]) - V(y[..n]) == V(x[..i + 1]) - V(y[..i + 1]) > 0
  {
    hide V;
    i := n - 1;
    while i >= 0 && x[i] == y[i]
      invariant -1 <= i < n
      invariant forall k :: i < k < n ==> x[k] == y[k]
    {
      i := i - 1;
    }
    if i >= 0 {
      assert x[..n][..i + 1] == x[..i + 1] && y[..n][..i + 1] == y[..i + 1];
      if x[i] < y[i] {
        TopDigitDecides(y[..n], x[..n], i);
      } else {
        TopDigitDecides(x[..n], y[..n], i);
      }
    }
  }

  /** The digits that a subtraction has to look at: equal ones at the top are cut off. */
  ghost predicate DifferUpTo(a: BigInteger, b: BigInteger, n: nat)
    requires a.Valid() && b.Valid()
    reads a, a.Digits, b, b.Digits
  {
    if a.Len() != b.Len() then n == Max(a.Len(), b.Len())
    else
      && 0 < n <= a.Len() && a.Digits[n - 1] != b.Digits[n - 1]
      && forall k :: n <= k < a.Len() ==> a.Digits[k] == b.Digits[k]
  }

  /** `x_sub`: the difference of the magnitudes, with its sign. */
  method XSub(lhs: BigInteger, rhs: BigInteger) returns (result: BigInteger)
    requires lhs.Valid() && rhs.Valid() && lhs.Normalized() && rhs.Normalized()
    ensures fresh(result) && result.Valid() && fresh(result.Digits) && result.Normalized() && result.Compact()
    ensures result.Value() == lhs.Magnitude() - rhs.Magnitude()
    ensures result.Heap ==> DifferUpTo(lhs, rhs, result.Allocated)
  {
    hide V, Lift, P, Trimmed;
    var a, b := lhs, rhs;
    var sizea, sizeb := a.Len(), b.Len();
    var sign := 1;
    ShorterIsSmaller(lhs, rhs);
    if sizea < sizeb {
      sign := -1;
      a, b := b, a;
      sizea, sizeb := sizeb, sizea;
    } else if sizea == sizeb {
      var i := TopDifference(a.Digits, b.Digits, sizea);
      if i < 0 {
        result := MakeBig(0);
        return;
      }
      if a.Digits[i] < b.Digits[i] {
        sign := -1;
        a, b := b, a;
      }
      sizea, sizeb := i + 1, i + 1;
    }
    result := SubLarger(a, sizea, b, sizeb, sign);
  }

  /** The rest of `x_sub`, with the larger magnitude first and the equal digits at the top cut off. */
  method SubLarger(a: BigInteger, sizea: nat, b: BigInteger, sizeb: nat, sign: int) returns (result: BigInteger)
    requires a.Valid() && b.Valid() && sizeb <= sizea <= a.Len() && sizeb <= b.Len()
    requires V(a.Digits[..sizea]) > V(b.Digits[..sizeb]) && (sign == 1 || sign == -1)
    ensures fresh(result) && result.Valid() && fresh(result.Digits) && result.Normalized() && result.Compact()
    ensures result.Heap ==> result.Allocated == sizea
    ensures result.Value() == if sign == 1 then V(a.Digits[..sizea]) - V(b.Digits[..sizeb])
      else V(b.Digits[..sizeb]) - V(a.Digits[..sizea])
  {
    hide V, Lift, P, Trimmed;
    SomeDigits(a.Digits[..sizea], b.Digits[..sizeb]);
    result := new BigInteger.WithRoom(sizea);
    SubDigits(a.Digits, sizea, b.Digits, sizeb, result.Digits);
    result.Size := if sign == 1 then sizea else -(sizea as int);
    assert result.Mag() == result.Digits[..sizea];
    result.Normalize();
  }

  lemma SomeDigits(s: seq<Digit>, t: seq<Digit>)
    requires V(s) > V(t)
    ensures |s| > 0
  {
    VBound(t);
  }
}
