/**
Truncating and flooring division of integers
(`include/lstd/big_integer.h`, lines 126-157).
 */
module IntegerDivision {
  import opened Powers

  function Abs(x: int): nat {
    if x < 0 then -x else x
  }

  function SignOf(x: int): int {
    if x < 0 then -1 else if x == 0 then 0 else 1
  }

  lemma SignedProduct(a: int, b: int)
    ensures (-a) * b == a * (-b) == -(a * b) && (-a) * (-b) == a * b
  {
  }

  /** What `divrem` promises: lhs == rhs * q + r, with r smaller than rhs and of lhs's sign. */
  ghost predicate Truncates(lhs: int, rhs: int, q: int, r: int) {
    && lhs == rhs * q + r
    && Abs(r) < Abs(rhs)
    && (r != 0 ==> SignOf(r) == SignOf(lhs))
  }

  /** What `divmod` promises: the same equation with r of rhs's sign. */
  ghost predicate Floors(lhs: int, rhs: int, q: int, r: int) {
    && lhs == rhs * q + r
    && Abs(r) < Abs(rhs)
    && (r != 0 ==> SignOf(r) == SignOf(rhs))
  }

  lemma QuotientsDiffer(rhs: int, q: int, r: int, q': int, r': int)
    requires rhs != 0 && rhs * q + r == rhs * q' + r' && Abs(r - r') < Abs(rhs)
    ensures q == q' && r == r'
  {
    Distribute(rhs, q, -q');
    SignedProduct(rhs, q');
    assert rhs * (q - q') == r' - r;
    if q > q' { MulMono(1, q - q', Abs(rhs)); SignedProduct(rhs, q - q'); }
    if q < q' { MulMono(1, q' - q, Abs(rhs)); SignedProduct(rhs, q - q'); }
  }

  /** Truncating and flooring division each have one answer, so the promises are complete. */
  lemma DivisionsUnique(lhs: int, rhs: int, q: int, r: int, q': int, r': int)
    requires (Truncates(lhs, rhs, q, r) && Truncates(lhs, rhs, q', r'))
          || (Floors(lhs, rhs, q, r) && Floors(lhs, rhs, q', r'))
    ensures q == q' && r == r'
  {
    hide Truncates, Floors;
    assert rhs != 0 && lhs == rhs * q + r && lhs == rhs * q' + r' && Abs(r - r') < Abs(rhs) by {
      SameSign(lhs, rhs, q, r, q', r');
    }
    QuotientsDiffer(rhs, q, r, q', r');
  }

  lemma SameSign(lhs: int, rhs: int, q: int, r: int, q': int, r': int)
    requires (Truncates(lhs, rhs, q, r) && Truncates(lhs, rhs, q', r'))
          || (Floors(lhs, rhs, q, r) && Floors(lhs, rhs, q', r'))
    ensures rhs != 0 && lhs == rhs * q + r && lhs == rhs * q' + r' && Abs(r - r') < Abs(rhs)
  {
  }

  lemma TruncatesSmall(a: int, b: int)
    requires Abs(a) < Abs(b)
    ensures Truncates(a, b, 0, a)
  {
  }

  /** Division of magnitudes, with the signs put back. */
  lemma TruncatesSigned(a: int, b: int, q: int, r: int, negA: bool, negB: bool)
    requires 0 <= a && 0 < b && 0 <= q && a == q * b + r && 0 <= r < b
    ensures Truncates(if negA then -a else a, if negB then -b else b,
                      if negA != negB then -q else q, if negA && r != 0 then -r else r)
  {
    SignedProduct(b, q);
    if r > 0 { MulMono(0, q, b); }
  }

  lemma TruncatesMagnitudes(a: int, b: int, q: int, r: int)
    requires a == q * b + r && 0 <= r < b && 0 <= a
    ensures Truncates(a, b, q, r)
  {
    if r > 0 && a == 0 {
      if q >= 0 { MulMono(0, q, b); } else { MulMono(q, -1, b); }
    }
  }

  lemma TruncatesWithSigns(a: int, b: int, q: int, r: int, negA: bool, negB: bool)
    requires 0 <= a && 0 < b && 0 <= q && 0 <= r && Truncates(a, b, q, r)
    ensures Truncates(if negA then -a else a, if negB then -b else b,
                      if negA != negB then -q else q, if negA && r != 0 then -r else r)
  {
    TruncatesSigned(a, b, q, r, negA, negB);
  }

  lemma FloorsFromTruncates(a: int, b: int, q: int, r: int)
    requires Truncates(a, b, q, r)
    ensures if SignOf(r) * SignOf(b) < 0 then Floors(a, b, q - 1, b + r) else Floors(a, b, q, r)
  {
    Distribute(b, q - 1, 1);
  }

  /** Nothing is left over if and only if the divisor divides the dividend. */
  lemma NothingLeftOver(a: int, b: int, q: int, r: int)
    requires Truncates(a, b, q, r)
    ensures b != 0 && (r == 0 <==> a % b == 0)
  {
    var t, u := a / b, a % b;
    assert a == b * t + u && 0 <= u < Abs(b);
    if u == 0 {
      DivisionsUnique(a, b, q, r, t, 0);
    }
    if r == 0 {
      QuotientsDiffer(b, q, 0, t, u);
    }
  }

  /**
  `/` truncates while `%` is documented to floor, so the two need not belong together: they make up
  the dividend again if and only if the division is exact or the signs agree.
   */
  lemma QuotientWithOtherRemainder(a: int, b: int, q: int, r: int, q': int, m: int)
    requires Truncates(a, b, q, r) && Floors(a, b, q', m)
    ensures b != 0 && (b * q + m == a <==> a % b == 0 || SignOf(a) == SignOf(b))
  {
    NothingLeftOver(a, b, q, r);
    FloorsFromTruncates(a, b, q, r);
    if SignOf(r) * SignOf(b) < 0 {
      DivisionsUnique(a, b, q - 1, b + r, q', m);
    } else {
      DivisionsUnique(a, b, q, r, q', m);
    }
  }
}
