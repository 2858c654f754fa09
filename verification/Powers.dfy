/** Powers of a natural base, and the wrap-around of fixed-width unsigned words. */
module Powers {

  /** Two to the 32nd and to the 64th: the moduli of `u32` and `u64`. */
  const TWO32: int := 0x1_0000_0000
  const TWO64: int := 0x1_0000_0000_0000_0000

  function Pow(b: nat, n: nat): (p: nat)
    ensures b > 0 ==> p > 0
  {
    if n == 0 then 1 else b * Pow(b, n - 1)
  }

  lemma SameFactor(a: int, b: int, c: int)
    requires a == b
    ensures a * c == b * c && c * a == c * b
  {
  }

  lemma MulAssoc(a: int, b: int, c: int)
    ensures (a * b) * c == a * (b * c)
  {
  }

  lemma {:induction false} PowAdd(b: nat, m: nat, n: nat)
    ensures Pow(b, m + n) == Pow(b, m) * Pow(b, n)
  {
    if m > 0 {
      PowAdd(b, m - 1, n);
      MulAssoc(b, Pow(b, m - 1), Pow(b, n));
    }
  }

  lemma {:induction false} PowMonotone(b: nat, m: nat, n: nat)
    requires b > 0 && m <= n
    ensures Pow(b, m) <= Pow(b, n)
  {
    if m < n {
      PowMonotone(b, m, n - 1);
      assert Pow(b, n) == b * Pow(b, n - 1) >= 1 * Pow(b, n - 1);
    }
  }

  lemma MulMono(a: int, b: int, c: int)
    requires a <= b && 0 <= c
    ensures a * c <= b * c && c * a <= c * b
  {
  }

  lemma Distribute(a: int, b: int, c: int)
    ensures a * (b + c) == a * b + a * c && (b + c) * a == b * a + c * a
  {
  }

  lemma MulSwap(a: int, b: int, c: int)
    ensures a * (b * c) == b * (a * c)
  {
  }

  lemma StrictlyLess(a: int, b: int, p: int)
    requires a < b && p > 0
    ensures a * p < b * p
  {
    MulMono(a + 1, b, p);
    Distribute(p, a, 1);
  }

  /** Division is determined by its defining equation. */
  lemma DivModUnique(x: int, d: int, q: int, r: int)
    requires d > 0 && 0 <= r < d && x == q * d + r
    ensures x / d == q && x % d == r
  {
    var q' := x / d;
    DivModLaw(x, d);
    if q' < q {
      MulMono(q' + 1, q, d);
    } else if q' > q {
      MulMono(q + 1, q', d);
    }
  }

  lemma DivModLaw(x: int, d: int)
    requires d > 0
    ensures x == (x / d) * d + x % d && 0 <= x % d < d
  {
  }

  /** The bounds of a quotient and a remainder; a divisor of two or more makes a number smaller. */
  lemma QuotientBounds(x: nat, d: nat)
    requires d > 0
    ensures 0 <= x / d <= x && 0 <= x % d < d
    ensures (x / d) * d <= x < (x / d + 1) * d
    ensures x / d == 0 <==> x < d
    ensures d >= 2 && x > 0 ==> x / d < x
  {
    DivModLaw(x, d);
    var q := x / d;
    Distribute(d, q, 1);
    if q < 0 { MulMono(q, -1, d); }
    if x < d { DivModUnique(x, d, 0, x); }
    if q > x { MulMono(x + 1, q, d); MulMono(1, d, x + 1); }
    if d >= 2 && q > 0 { MulMono(2, d, q); }
  }

  lemma Pow2Small()
    ensures Pow(2, 0) == 1 && Pow(2, 1) == 2 && Pow(2, 2) == 4
    ensures Pow(2, 3) == 8 && Pow(2, 4) == 16 && Pow(2, 5) == 32
  {
  }

  lemma Pow2Byte()
    ensures Pow(2, 8) == 0x100
  {
  }

  lemma Pow2Word()
    ensures Pow(2, 32) == TWO32 && Pow(2, 64) == TWO64
  {
    hide Pow;
    Pow2Byte();
    PowAdd(2, 8, 8);
    PowAdd(2, 16, 16);
    PowAdd(2, 32, 32);
  }

  /** Shifting the remainder back undoes the normalization of both operands. */
  lemma Unnormalize(a: int, b: int, q: int, rest: int, p: int)
    requires p > 0 && a * p == q * (b * p) + rest && 0 <= rest < b * p
    ensures a == q * b + rest / p && 0 <= rest / p < b
  {
    MulAssoc(q, b, p);
    var r := a - q * b;
    Distribute(p, a, -(q * b));
    NegProduct(q * b, p);
    assert rest == r * p;
    DivModUnique(rest, p, r, 0);
    if r < 0 { MulMono(r, -1, p); }
    if r >= b { MulMono(b, r, p); }
  }

  lemma NegProduct(a: int, p: int)
    ensures (-a) * p == -(a * p)
  {
  }
}
