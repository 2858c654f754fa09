/**
Grade-school multiplication and squaring (`include/lstd/big_integer.h`, lines 475-548).
 */
module BigMul {
  import opened Powers
  import opened BigDigits
  import opened BigIntegers
  import opened BigAddSub

  lemma DigitProduct(x: int, y: int)
    requires 0 <= x <= MASK && 0 <= y
    ensures 0 <= x * y <= MASK * y
  {
    MulMono(x, MASK, y);
    MulMono(0, x, y);
  }

  /** Adding to a window adds the lifted amount to the whole vector. */
  lemma AddedWhole(s: seq<Digit>, x: seq<Digit>, xo: nat, i: nat, m: nat, sum: int)
    requires AddedTo(s, x, xo, i, sum) && xo + i <= m <= |s|
    ensures V(x[..m]) == V(s[..m]) + Lift(sum, xo)
  {
    hide V, Lift;
    AddedWiden(s, x, xo, i, m - xo, sum);
    VSplit(x[..m], xo);
    VSplit(s[..m], xo);
    assert x[..m][..xo] == x[..xo] && s[..m][..xo] == s[..xo];
    assert x[..m][xo..] == x[xo..xo + (m - xo)] && s[..m][xo..] == s[xo..xo + (m - xo)];
    LiftAdd(V(s[..m][xo..]), sum, xo);
  }

  /** One row of the grade-school scheme: add f * y[..n] at position zo. */
  method MulRow(z: array<Digit>, zo: nat, y: array<Digit>, n: nat, f: Digit)
    requires z != y && zo + n < z.Length && n <= y.Length
    requires z[zo + n] == 0
    modifies z
    ensures AddedTo(old(z[..]), z[..], zo, n + 1, f * V(y[..n]))
  {
    hide AddedTo, V, Lift;
    ghost var s, ys := z[..], y[..n];
    var carry := 0;
    var k := 0;
    AddedNone(s, zo);
    while k < n
      invariant 0 <= k <= n && 0 <= carry <= MASK
      invariant AddedTo(s, z[..], zo, k, f * V(ys[..k]) - Lift(carry, k))
    {
      AddedNext(s, z[..], zo, k, f * V(ys[..k]) - Lift(carry, k));
      var sum: int := carry + z[zo + k] as int + f * y[k];
      RowColumn(s, z[..], zo, k, ys, f, carry, sum);
      z[zo + k] := sum % BASE;
      carry := sum / BASE;
      k := k + 1;
    }
    assert ys[..n] == ys;
    AddedNext(s, z[..], zo, n, f * V(ys) - Lift(carry, n));
    AddedStep(s, z[..], zo, n, f * V(ys) - Lift(carry, n), carry, carry, 0);
    LiftZero(n + 1);
    if carry != 0 {
      z[zo + n] := carry;
    } else {
      assert z[..][zo + n := 0] == z[..];
    }
  }

  /** One column of a row: the sum fits in 64 bits, and the carry in a digit. */
  lemma RowColumn(s: seq<Digit>, z: seq<Digit>, zo: nat, k: nat, ys: seq<Digit>, f: Digit, carry: int, sum: int)
    requires zo + k < |s| && k < |ys| && 0 <= carry <= MASK
    requires AddedTo(s, z, zo, k, f * V(ys[..k]) - Lift(carry, k))
    requires sum == carry + s[zo + k] as int + f * ys[k]
    ensures 0 <= sum < TWO64 && 0 <= sum / BASE <= MASK
    ensures AddedTo(s, z[zo + k := sum % BASE], zo, k + 1, f * V(ys[..k + 1]) - Lift(sum / BASE, k + 1))
  {
    hide AddedTo, V, Lift;
    DigitProduct(f, ys[k]);
    AddedStep(s, z, zo, k, f * V(ys[..k]) - Lift(carry, k), carry + f * ys[k], sum % BASE, sum / BASE);
    RowStep(ys, k, f, carry);
  }

  lemma RowStep(ys: seq<Digit>, k: nat, f: Digit, carry: int)
    requires k < |ys|
    ensures f * V(ys[..k]) - Lift(carry, k) + Lift(carry + f * ys[k], k) == f * V(ys[..k + 1])
  {
    hide V, Lift;
    VPrefix(ys, k);
    LiftAdd(carry, f * ys[k], k);
    LiftMul(f, ys[k], k);
    Distribute(f, V(ys[..k]), Lift(ys[k], k));
  }

  /** The general branch of `x_mul`. */
  method GradeSchool(x: array<Digit>, sizea: nat, y: array<Digit>, sizeb: nat, z: array<Digit>)
    requires z != x && z != y && sizea <= x.Length && sizeb <= y.Length && sizea + sizeb <= z.Length
    requires forall k :: 0 <= k < z.Length ==> z[k] == 0
    modifies z
    ensures V(z[..sizea + sizeb]) == V(x[..sizea]) * V(y[..sizeb])
  {
    hide AddedTo, V, Lift;
    ghost var xs, ys, n := x[..sizea], y[..sizeb], sizea + sizeb;
    AddedNone(xs, 0);
    VZero(z[..n]);
    for it := 0 to sizea
      invariant V(z[..][..n]) == V(xs[..it]) * V(ys)
      invariant ZeroFrom(z[..], it + sizeb)
    {
      ghost var s := z[..];
      MulRow(z, it, y, sizeb, x[it]);
      RowAdded(s, z[..], it, sizeb, n, xs, ys);
    }
    assert xs[..sizea] == xs && z[..][..n] == z[..n];
  }

  ghost predicate ZeroFrom(s: seq<Digit>, from: nat) {
    forall k :: from <= k < |s| ==> s[k] == 0
  }

  /** One more row of the product. */
  lemma RowAdded(s: seq<Digit>, z: seq<Digit>, it: nat, sizeb: nat, n: nat, xs: seq<Digit>, ys: seq<Digit>)
    requires it < |xs| && n == |xs| + sizeb <= |s| && ZeroFrom(s, it + sizeb)
    requires AddedTo(s, z, it, sizeb + 1, xs[it] * V(ys)) && V(s[..n]) == V(xs[..it]) * V(ys)
    ensures |z| == |s| && V(z[..n]) == V(xs[..it + 1]) * V(ys) && ZeroFrom(z, it + 1 + sizeb)
  {
    hide AddedTo, V, Lift;
    AddedAbove(s, z, it, sizeb + 1, xs[it] * V(ys));
    AddedWhole(s, z, it, sizeb + 1, n, xs[it] * V(ys));
    OneMoreRow(xs, it, V(ys));
  }

  lemma OneMoreRow(xs: seq<Digit>, it: nat, y: int)
    requires it < |xs|
    ensures V(xs[..it]) * y + Lift(xs[it] * y, it) == V(xs[..it + 1]) * y
  {
    hide V, Lift;
    VPrefix(xs, it);
    LiftMul(y, xs[it], it);
    Distribute(y, V(xs[..it]), Lift(xs[it], it));
  }

  lemma AddedAbove(s: seq<Digit>, x: seq<Digit>, xo: nat, i: nat, sum: int)
    requires AddedTo(s, x, xo, i, sum)
    ensures |x| == |s| && forall k :: xo + i <= k < |s| ==> x[k] == s[k]
  {
    forall k | xo + i <= k < |s| ensures x[k] == s[k] {
      assert x[xo + i..][k - xo - i] == s[xo + i..][k - xo - i];
    }
  }

  /** What row `it` of the squaring scheme adds at position 2 * it: f * (f + 2 * the digits above). */
  ghost function SquareRowSum(xs: seq<Digit>, it: nat, k: nat): int
    requires it < k <= |xs|
  {
    var f: int := xs[it];
    f * f + (2 * f) * (BASE * V(xs[it + 1..k]))
  }

  lemma SquareRowStep(xs: seq<Digit>, it: nat, k: nat, carry: int, twice: int, product: int)
    requires it < k < |xs| && twice == 2 * xs[it] as int && product == xs[k] as int * twice
    ensures SquareRowSum(xs, it, k) - Lift(carry, k - it) + Lift(carry + product, k - it)
      == SquareRowSum(xs, it, k + 1)
  {
    hide V, Lift;
    var above := xs[it + 1..k];
    VWindow(xs, it + 1, k - it - 1);
    LiftAdd(carry, product, k - it);
    LiftMul(twice, xs[k], k - it);
    LiftUnfold(xs[k], k - it);
    Distribute(twice, BASE * V(above), BASE * Lift(xs[k], k - it - 1));
  }

  lemma LiftUnfold(v: int, n: nat)
    requires n > 0
    ensures Lift(v, n) == BASE * Lift(v, n - 1)
  {
  }

  /** One column of a squaring row. */
  lemma SquareColumn(s: seq<Digit>, z: seq<Digit>, xs: seq<Digit>, it: nat, j: nat, carry: int, twice: int, sum: int)
    requires it < j < |xs| && it + j < |s| && 0 <= carry <= 2 * MASK && twice == 2 * xs[it] as int
    requires AddedTo(s, z, 2 * it, j - it, SquareRowSum(xs, it, j) - Lift(carry, j - it))
    requires |z| == |s| && sum == carry + z[it + j] as int + xs[j] as int * twice
    ensures 0 <= sum < TWO64 && 0 <= sum / BASE <= 2 * MASK
    ensures AddedTo(s, z[it + j := sum % BASE], 2 * it, j - it + 1,
      SquareRowSum(xs, it, j + 1) - Lift(sum / BASE, j - it + 1))
  {
    hide AddedTo, V, Lift, P, SquareRowSum;
    var soFar, product := SquareRowSum(xs, it, j) - Lift(carry, j - it), xs[j] as int * twice;
    AddedNext(s, z, 2 * it, j - it, soFar);
    DigitProduct(xs[j], twice);
    AddedStep(s, z, 2 * it, j - it, soFar, carry + product, sum % BASE, sum / BASE);
    SquareRowStep(xs, it, j, carry, twice, product);
  }

  /** The columns of one squaring row: the carry stays within `MASK << 1`. */
  method SquareColumns(z: array<Digit>, x: array<Digit>, n: nat, it: nat) returns (carry: int)
    requires z != x && it < n <= x.Length && 2 * n <= z.Length
    modifies z
    ensures 0 <= carry <= 2 * MASK
    ensures AddedTo(old(z[..]), z[..], 2 * it, n - it, SquareRowSum(x[..n], it, n) - Lift(carry, n - it))
  {
    hide AddedTo, V, Lift, P, SquareRowSum;
    ghost var s, xs := z[..], x[..n];
    var zo := 2 * it;
    var f: int := x[it];
    DigitProduct(f, f);
    var square: int := f * f;
    carry := z[zo] as int + square;
    AddedNone(s, zo);
    SquareRowStart(xs, it, square);
    AddedStep(s, z[..], zo, 0, 0, square, carry % BASE, carry / BASE);
    LiftNone(square);
    z[zo] := carry % BASE;
    carry := carry / BASE;
    assert carry <= MASK;
    var twice := 2 * f;
    var j := it + 1;
    while j < n
      invariant it < j <= n && 0 <= carry <= 2 * MASK
      invariant AddedTo(s, z[..], zo, j - it, SquareRowSum(xs, it, j) - Lift(carry, j - it))
    {
      var sum: int := carry + z[it + j] as int + x[j] as int * twice;
      SquareColumn(s, z[..], xs, it, j, carry, twice, sum);
      z[it + j] := sum % BASE;
      carry := sum / BASE;
      j := j + 1;
    }
  }

  /** The first step after the columns: a carry goes into position it + n. */
  method SquareCarry(z: array<Digit>, zo: nat, k: nat, carryIn: int, ghost s: seq<Digit>, ghost total: int)
      returns (carry: int)
    requires |s| == z.Length && zo + k < z.Length && 0 <= carryIn <= 2 * MASK
    requires AddedTo(s, z[..], zo, k, total - Lift(carryIn, k))
    modifies z
    ensures 0 <= carry <= 2
    ensures AddedTo(s, z[..], zo, k + 1, total - Lift(carry, k + 1))
  {
    hide AddedTo, Lift;
    carry := carryIn;
    if carry != 0 {
      AddedNext(s, z[..], zo, k, total - Lift(carryIn, k));
      var sum: int := carry + z[zo + k] as int;
      AddedStep(s, z[..], zo, k, total - Lift(carryIn, k), carry, sum % BASE, sum / BASE);
      z[zo + k] := sum % BASE;
      carry := sum / BASE;
    } else {
      LiftZero(k);
      LiftZero(k + 1);
      AddedWiden(s, z[..], zo, k, k + 1, total);
    }
  }

  /**
  Row `it` of the squaring branch (HAC, Algorithm 14.16). What is left after position
  it + n lands on a zero digit, and for the last row nothing is left, because the sum
  so far fits in 2 * n digits.
   */
  method SquareRow(z: array<Digit>, x: array<Digit>, n: nat, it: nat)
    requires z != x && it < n <= x.Length && 2 * n <= z.Length
    requires forall k :: it + n + 1 <= k < z.Length ==> z[k] == 0
    requires V(z[..2 * n]) + Lift(SquareRowSum(x[..n], it, n), 2 * it) < P(2 * n)
    modifies z
    ensures V(z[..2 * n]) == old(V(z[..2 * n])) + Lift(SquareRowSum(x[..n], it, n), 2 * it)
    ensures forall k :: it + n + 2 <= k < z.Length ==> z[k] == 0
  {
    hide AddedTo, V, Lift, P, SquareRowSum;
    ghost var s, total := z[..], SquareRowSum(x[..n], it, n);
    var zo, k := 2 * it, n - it;
    var carry := SquareColumns(z, x, n, it);
    carry := SquareCarry(z, zo, k, carry, s, total);
    if it == n - 1 { LastRowFits(s, z[..], n, total, carry); }
    ghost var used := k + 1;
    if carry != 0 {
      AddedNext(s, z[..], zo, used, total - Lift(carry, used));
      AddedStep(s, z[..], zo, used, total - Lift(carry, used), carry, carry, 0);
      z[zo + k + 1] := carry;
      used := k + 2;
    }
    LiftZero(used);
    AddedAbove(s, z[..], zo, used, total);
    AddedWhole(s, z[..], zo, used, 2 * n, total);
    assert z[..][..2 * n] == z[..2 * n];
  }

  lemma SquareRowStart(xs: seq<Digit>, it: nat, square: int)
    requires it < |xs| && square == xs[it] as int * xs[it] as int
    ensures SquareRowSum(xs, it, it + 1) == square
  {
    assert xs[it + 1..it + 1] == [];
  }

  /** A sum that fits in 2 * n digits leaves no carry out of them. */
  lemma LastRowFits(s: seq<Digit>, x: seq<Digit>, n: nat, total: int, carry: int)
    requires n > 0 && carry >= 0 && |s| == |x| >= 2 * n
    requires AddedTo(s, x, 2 * (n - 1), 2, total - Lift(carry, 2))
    requires V(s[..2 * n]) + Lift(total, 2 * (n - 1)) < P(2 * n)
    ensures carry == 0
  {
    hide AddedTo, V, Lift;
    AddedWhole(s, x, 2 * (n - 1), 2, 2 * n, total - Lift(carry, 2));
    LiftAdd(total, Lift(carry, 2), 2 * (n - 1));
    LiftLift(carry, 2, 2 * (n - 1));
    if carry > 0 { LiftMono(1, carry, 2 * n); }
    VBound(x[..2 * n]);
  }

  /** The squaring branch of `x_mul`. */
  method Square(x: array<Digit>, n: nat, z: array<Digit>)
    requires z != x && n <= x.Length && 2 * n <= z.Length
    requires forall k :: 0 <= k < z.Length ==> z[k] == 0
    modifies z
    ensures V(z[..2 * n]) == V(x[..n]) * V(x[..n])
    ensures n == 0 ==> z[..] == old(z[..])
  {
    hide V, Lift, P, SquareRowSum;
    ghost var xs := x[..n];
    VZero(z[..2 * n]);
    LiftNone(V(xs) * V(xs));
    assert xs[0..] == xs;
    for it := 0 to n
      invariant V(z[..2 * n]) + Lift(V(xs[it..]) * V(xs[it..]), 2 * it) == V(xs) * V(xs)
      invariant forall k :: it + n + 1 <= k < z.Length ==> z[k] == 0
      invariant it == 0 ==> z[..] == old(z[..])
    {
      SquareSplit(xs, it);
      SquareFits(xs, it, V(z[..2 * n]));
      SquareRow(z, x, n, it);
    }
    assert xs[n..] == [];
    EmptySquare(2 * n);
  }

  lemma LiftNone(v: int)
    ensures Lift(v, 0) == v
  {
  }

  lemma EmptySquare(k: nat)
    ensures Lift(V([]) * V([]), k) == 0
  {
    LiftZero(k);
  }

  /** Squaring a vector from digit `it` on is the row of that digit plus the square above it. */
  lemma SquareSplit(xs: seq<Digit>, it: nat)
    requires it < |xs|
    ensures Lift(V(xs[it..]) * V(xs[it..]), 2 * it)
      == Lift(SquareRowSum(xs, it, |xs|), 2 * it) + Lift(V(xs[it + 1..]) * V(xs[it + 1..]), 2 * (it + 1))
  {
    hide V, Lift;
    var f: int, above := xs[it], V(xs[it + 1..]);
    VHead(xs[it..]);
    assert xs[it..][1..] == xs[it + 1..] == xs[it + 1..|xs|];
    SquareOfSum(f, above);
    LiftAdd(f * f + 2 * f * (BASE * above), BASE * (BASE * (above * above)), 2 * it);
    LiftBase(BASE * (above * above), 2 * it);
    LiftBase(above * above, 2 * it + 1);
  }

  lemma SquareOfSum(f: int, a: int)
    ensures (f + BASE * a) * (f + BASE * a)
      == f * f + 2 * f * (BASE * a) + BASE * (BASE * (a * a))
  {
  }

  /** Every partial sum of rows stays below the bound for 2 * n digits. */
  lemma SquareFits(xs: seq<Digit>, it: nat, soFar: int)
    requires it < |xs|
    requires soFar + Lift(V(xs[it..]) * V(xs[it..]), 2 * it) == V(xs) * V(xs)
    ensures soFar + Lift(SquareRowSum(xs, it, |xs|), 2 * it) < P(2 * |xs|)
  {
    hide V, Lift, P;
    var n := |xs|;
    SquareSplit(xs, it);
    VBound(xs);
    StrictSquare(V(xs), P(n));
    PAdd(n, n);
    var above := V(xs[it + 1..]);
    VBound(xs[it + 1..]);
    MulMono(0, above, above);
    LiftMono(0, above * above, 2 * (it + 1));
    LiftZero(2 * (it + 1));
  }

  lemma StrictSquare(a: int, b: int)
    requires 0 <= a < b
    ensures a * a < b * b
  {
    MulMono(a, b, a);
    MulMono(a + 1, b, b);
  }

  /** The square of nothing, when `operator==` takes zero for a number of 2^32 digits. */
  lemma ZeroProduct(x: seq<Digit>, y: seq<Digit>, z: seq<Digit>)
    requires x == [] && forall k :: 0 <= k < |z| ==> z[k] == 0
    ensures V(z) == V(x) * V(y)
  {
    VZero(z);
  }

  /** The two branches of `x_mul`: squaring is right for every pair of equal numbers, and for what
      `operator==` takes for equal. */
  method MultiplyDigits(lhs: BigInteger, rhs: BigInteger, same: bool, z: array<Digit>)
    requires lhs.Valid() && rhs.Valid() && z != lhs.Digits && z != rhs.Digits
    requires same ==> lhs.Mag() == rhs.Mag() || lhs.Size == 0
    requires lhs.Len() + rhs.Len() <= z.Length && forall k :: 0 <= k < z.Length ==> z[k] == 0
    modifies z
    ensures V(z[..lhs.Len() + rhs.Len()]) == lhs.Magnitude() * rhs.Magnitude()
  {
    hide V, Lift;
    var sizea, sizeb := lhs.Len(), rhs.Len();
    if same {
      Square(lhs.Digits, sizea, z);
      if sizea == 0 { ZeroProduct(lhs.Mag(), rhs.Mag(), z[..sizeb]); }
    } else {
      GradeSchool(lhs.Digits, sizea, rhs.Digits, sizeb, z);
    }
  }

  /** `x_mul`: the product of the magnitudes. The result asks for no digits only for two empty operands. */
  method XMul(lhs: BigInteger, rhs: BigInteger) returns (result: BigInteger, asserted: bool)
    requires lhs.Valid() && rhs.Valid()
    ensures fresh(result) && result.Valid() && fresh(result.Digits) && result.Normalized() && result.Compact()
    ensures result.Size >= 0 && result.Len() <= lhs.Len() + rhs.Len()
    ensures result.Magnitude() == lhs.Magnitude() * rhs.Magnitude()
    ensures result.Heap ==> result.Allocated == lhs.Len() + rhs.Len()
    ensures asserted <==> lhs.Size != 0 || rhs.Size != 0
  {
    hide V, Lift, Trimmed;
    var size := lhs.Len() + rhs.Len();
    result, asserted := MakeRoom(size);
    result.Size := size;
    var same := AreEqual(lhs, rhs);
    MultiplyDigits(lhs, rhs, same, result.Digits);
    assert result.Mag() == result.Digits[..size];
    result.Normalize();
  }
}
