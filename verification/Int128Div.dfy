/**
128-bit multiplication and division on 64-bit words
(`include/lstd/common.h`, lines 900-1129 and 1458-1524).
 */
module Int128Div {
  import opened Powers
  import opened IntegerDivision
  import opened Bits
  import opened Int128

  /** `s64_umulh_s64_s64`: the high word of a product, from four 32-bit products. */
  function UMulHigh(x: U64, y: U64): (hi: U64) {
    var x0, x1 := x % TWO32, x / TWO32;
    var y0, y1 := y % TWO32, y / TWO32;
    var z0, z1, z2, z3 := W64(x0 * y0), W64(x1 * y0), W64(x0 * y1), W64(x1 * y1);
    var z4 := W64(z1 + z0 / TWO32);
    var c1 := W64(z2 + z4 % TWO32);
    W64(z3 + z4 / TWO32 + c1 / TWO32)
  }

  /** `i128_umul_s64_s64`. */
  function UMul(x: U64, y: U64): S128 {
    S128(UMulHigh(x, y), W64(x * y))
  }

  /** The high word of `i128_mulu`: the cross products are added modulo 2^64. */
  function AddCross(hi: U64, a: int, b: int): U64 {
    W64(hi as int + W64(W64(a) as int + W64(b)))
  }

  /** `i128_mulu`. */
  function MulU(u: S128, v: S128): S128 {
    var x := UMul(u.lo, v.lo);
    S128(AddCross(x.hi, u.lo as int * v.hi, u.hi as int * v.lo), x.lo)
  }

  lemma HalfProduct(x: int, y: int)
    requires 0 <= x < TWO32 && 0 <= y < TWO32
    ensures 0 <= x * y <= 0xffff_fffe_0000_0001
  {
    MulMono(x, 0xffff_ffff, y);
    MulMono(0, x, y);
  }

  lemma FourProducts(x: int, x0: int, x1: int, y: int, y0: int, y1: int)
    requires x == x1 * TWO32 + x0 && y == y1 * TWO32 + y0
    ensures x * y
      == x0 * y0 + TWO32 * (x1 * y0 + x0 * y1) + TWO64 * (x1 * y1)
  {
    Distribute(x, y1 * TWO32, y0);
    Distribute(y0, x1 * TWO32, x0);
    Distribute(y1, x1 * TWO32, x0);
  }

  lemma W64Small(x: int)
    requires 0 <= x < TWO64
    ensures W64(x) == x
  {
  }

  /** The 64x64 multiplication is exact: no partial sum wraps around. */
  lemma UMulIsExact(x: U64, y: U64)
    ensures U(UMul(x, y)) == x * y
    ensures UMulHigh(x, y) == (x * y) / TWO64
  {
    hide W64, UMulHigh;
    var x0: int, x1: int := x % TWO32, x / TWO32;
    var y0: int, y1: int := y % TWO32, y / TWO32;
    HalfProduct(x0, y0);
    HalfProduct(x1, y0);
    HalfProduct(x0, y1);
    HalfProduct(x1, y1);
    FourProducts(x, x0, x1, y, y0, y1);
    WordProduct(x, y);
    UMulHighUnfold(x, y);
    var hi := HighOfFour(x * y, x0 * y0, x1 * y0, x0 * y1, x1 * y1);
    W64Product(x * y, hi);
  }

  /** The sums of `UMulHigh`, over the four products. */
  function HighWord(z0: int, z1: int, z2: int, z3: int): U64 {
    var z4 := W64(W64(z1) + W64(z0) / TWO32);
    var c1 := W64(W64(z2) + z4 % TWO32);
    W64(W64(z3) + z4 / TWO32 + c1 / TWO32)
  }

  lemma UMulHighUnfold(x: U64, y: U64)
    ensures var x0: int, x1: int, y0: int, y1: int := x % TWO32, x / TWO32, y % TWO32, y / TWO32;
      UMulHigh(x, y) == HighWord(x0 * y0, x1 * y0, x0 * y1, x1 * y1)
  {
    hide W64;
  }

  lemma W64Product(p: int, hi: int)
    requires 0 <= hi * TWO64 <= p < (hi + 1) * TWO64
    ensures p == hi * TWO64 + W64(p) && hi == p / TWO64
  {
  }

  lemma HighOfFour(p: int, z0: int, z1: int, z2: int, z3: int) returns (hi: int)
    requires 0 <= z0 <= 0xffff_fffe_0000_0001 && 0 <= z1 <= 0xffff_fffe_0000_0001
    requires 0 <= z2 <= 0xffff_fffe_0000_0001 && 0 <= z3 <= 0xffff_fffe_0000_0001
    requires p == z0 + TWO32 * (z1 + z2) + TWO64 * z3
    requires p <= 0xffff_ffff_ffff_ffff * 0xffff_ffff_ffff_ffff
    ensures hi == HighWord(z0, z1, z2, z3)
    ensures 0 <= hi * TWO64 <= p < (hi + 1) * TWO64
  {
    hide W64;
    var z4 := z1 + z0 / TWO32;
    var c1 := z2 + z4 % TWO32;
    hi := z3 + z4 / TWO32 + c1 / TWO32;
    var lo := z0 % TWO32 + TWO32 * (c1 % TWO32);
    assert p == hi * TWO64 + lo && 0 <= lo < TWO64;
    W64Small(z0);
    W64Small(z1);
    W64Small(z2);
    W64Small(z3);
    W64Small(z4);
    W64Small(c1);
    W64Small(hi);
  }

  lemma WordProduct(x: U64, y: U64)
    ensures 0 <= x * y <= 0xffff_ffff_ffff_ffff * 0xffff_ffff_ffff_ffff
  {
    MulMono(x, 0xffff_ffff_ffff_ffff, y);
    MulMono(0, x, y);
  }

  /** 128-bit multiplication, modulo 2^128. */
  lemma MulUIsProduct(u: S128, v: S128)
    ensures U(MulU(u, v)) == (U(u) * U(v)) % TWO128
  {
    hide AddCross, UMul;
    UMulIsExact(u.lo, v.lo);
    var x := UMul(u.lo, v.lo);
    var a: int, b: int, top: int := u.lo as int * v.hi, u.hi as int * v.lo, u.hi as int * v.hi;
    CrossProducts(U(u), u.hi, u.lo, U(v), v.hi, v.lo);
    FinishMulU(U(u) * U(v), top, a, b, x);
  }

  lemma FinishMulU(p: int, top: int, a: int, b: int, x: S128)
    requires p == top * TWO128 + (a + b) * TWO64 + U(x)
    ensures U(S128(AddCross(x.hi, a, b), x.lo)) == p % TWO128
  {
    var ab: int := W64(a) as int + W64(b);
    var k := a / TWO64 + b / TWO64 + ab / TWO64
             + (x.hi as int + W64(ab)) / TWO64;
    DivModUnique(p, TWO128, top + k, U(S128(AddCross(x.hi, a, b), x.lo)));
  }

  lemma CrossProducts(u: int, u1: int, u0: int, v: int, v1: int, v0: int)
    requires u == u1 * TWO64 + u0 && v == v1 * TWO64 + v0
    ensures u * v == (u1 * v1) * TWO128 + (u0 * v1 + u1 * v0) * TWO64 + u0 * v0
  {
    Distribute(u, v1 * TWO64, v0);
    Distribute(v0, u1 * TWO64, u0);
    Distribute(v1, u1 * TWO64, u0);
  }

  // 128 / 64 -> 64 bit division

  /** `clz`: the number of leading zeros of a nonzero word. */
  function Clz(y: U64): (n: nat)
    requires y > 0
    ensures n <= 63 && 0x8000_0000_0000_0000 <= y * Pow(2, n) < TWO64
  {
    ClzBounds(y);
    63 - Msb(y)
  }

  lemma ClzBounds(y: U64)
    requires y > 0
    ensures Msb(y) <= 63
    ensures 0x8000_0000_0000_0000 <= y * Pow(2, 63 - Msb(y)) < TWO64
  {
    hide Pow;
    var m := Msb(y);
    Pow2Word();
    if m > 63 { PowMonotone(2, 64, m); }
    PowAdd(2, m, 63 - m);
    PowAdd(2, m + 1, 63 - m);
    PowAdd(2, 63, 1);
    Pow2Small();
    MulMono(Pow(2, m), y, Pow(2, 63 - m));
    StrictlyLess(y, Pow(2, m + 1), Pow(2, 63 - m));
  }

  /**
  One 32-bit quotient digit: the estimate from the upper half of the divisor, the
  correction by 2 or 1, and the partial remainder, computed modulo 2^64.
   */
  method QuotientHalf(rem: U64, num: U64, y: U64) returns (q: U64, rest: U64)
    requires 0x8000_0000_0000_0000 <= y && rem < y && num < TWO32
    ensures rem * TWO32 + num == q * y + rest
    ensures 0 <= q < TWO32 && 0 <= rest < y
  {
    hide W64;
    var den1: int, den0: int := y / TWO32, y % TWO32;
    var qhat: int, rhat: int := rem / den1, rem % den1;
    DivModLaw(rem, den1);
    ghost var product, n: int := qhat * den0, rem as int * TWO32 + num;
    EstimateRange(rem, num, den1, den0, qhat, rhat, product);
    EstimateError(n, y, den1, den0, rem, num, qhat, rhat, product);
    var c1: int := W64(qhat * den0);
    var c2: int := W64(rhat * TWO32 + num);
    var back := if c1 <= c2 then 0 else if c1 - c2 > y then 2 else 1;
    CorrectedDigit(n, y, qhat, c1, c2, back);
    qhat := qhat - back;
    q := qhat % TWO32;
    rest := W64(rem as int * TWO32 + num - q as int * y);
    W64Small(n - qhat * y);
  }

  /** Taking 2, 1 or 0 off the estimate, as the two products say, gives the exact digit. */
  lemma CorrectedDigit(n: int, y: int, qhat: int, c1: int, c2: int, back: int)
    requires 0x8000_0000_0000_0000 <= y && 0 <= n < y * TWO32
    requires n - qhat * y == c2 - c1 && 0 <= c2 < y && 0 <= c1 <= 0xffff_ffff_ffff_ffff
    requires back == if c1 <= c2 then 0 else if c1 - c2 > y then 2 else 1
    ensures 0 <= n - (qhat - back) * y < y && 0 <= qhat - back < TWO32
    ensures (qhat - back) % TWO32 == qhat - back
  {
    var q := qhat - back;
    BackOff(y, qhat, back);
    DigitRange(n, y, q);
  }

  lemma BackOff(y: int, qhat: int, back: int)
    requires 0 <= back <= 2
    ensures (qhat - back) * y == qhat * y - (if back == 0 then 0 else if back == 1 then y else 2 * y)
  {
  }

  /** The estimate is at most BASE + 1, and neither product of the correction wraps. */
  lemma EstimateRange(rem: int, num: int, den1: int, den0: int, qhat: int, rhat: int, product: int)
    requires 0x8000_0000 <= den1 < TWO32 && 0 <= den0 < TWO32 && 0 <= num < TWO32
    requires 0 <= rem < den1 * TWO32 + den0 && rem == qhat * den1 + rhat && 0 <= rhat < den1
    requires product == qhat * den0
    ensures 0 <= qhat <= 0x1_0000_0001 && 0 <= product <= 0xffff_ffff_ffff_ffff
    ensures W64(product) == product && W64(rhat * TWO32 + num) == rhat * TWO32 + num
    ensures rhat * TWO32 + num < den1 * TWO32
  {
    if qhat < 0 { MulMono(qhat, -1, den1); }
    if qhat > 0x1_0000_0001 { MulMono(0x1_0000_0002, qhat, den1); }
    MulMono(qhat, 0x1_0000_0001, den0);
    MulMono(0, qhat, den0);
  }

  /** What the estimate is off by is the difference of the two products. */
  lemma EstimateError(n: int, y: int, den1: int, den0: int, rem: int, num: int, qhat: int, rhat: int, product: int)
    requires y == den1 * TWO32 + den0 && rem == qhat * den1 + rhat && product == qhat * den0
    requires n == rem * TWO32 + num
    ensures n - qhat * y == rhat * TWO32 + num - product
  {
    Distribute(qhat, den1 * TWO32, den0);
  }

  lemma DigitRange(n: int, y: int, q: int)
    requires 0 < y && 0 <= n < y * TWO32 && 0 <= n - q * y < y
    ensures 0 <= q < TWO32
  {
    if q >= TWO32 { MulMono(TWO32, q, y); }
    if q < 0 { MulMono(q, -1, y); }
  }

  /** `s64_udiv_i128_s64`: quotient and remainder of a division whose quotient fits in a word. */
  method UDiv128By64(x: S128, y: U64) returns (q: U64, r: U64)
    ensures x.hi >= y ==> q == 0xffff_ffff_ffff_ffff && r == 0xffff_ffff_ffff_ffff
    ensures x.hi < y ==> U(x) == q * y + r && 0 <= r < y
  {
    hide Pow, Shl64, Shr64, Or64, Sll, Msb, W64;
    if x.hi >= y {
      return 0xffff_ffff_ffff_ffff, 0xffff_ffff_ffff_ffff;
    }
    var sh := Clz(y);
    var y' := Shl64(y, sh);
    var x' := Sll(x, sh);
    NormalizedOperands(x, y, sh);
    var num1: U64, num0: U64 := Shr64(x'.lo, 32), x'.lo % TWO32;
    HalvesOf(x'.lo);
    var q1, rem := QuotientHalf(x'.hi, num1, y');
    var q0, rest := QuotientHalf(rem, num0, y');
    r := Shr64(rest, sh);
    q := Or64(Shl64(q1, 32), q0);
    JoinHalves(q1, q0);
    TwoSteps(U(x'), x'.hi, num1, num0, q1, q0, rem, rest, y');
    Unnormalize(U(x), y, q, rest, Pow(2, sh));
    ShrIsQuotient(rest, sh);
  }

  lemma HalvesOf(lo: U64)
    ensures Shr64(lo, 32) == lo / TWO32
  {
    hide Pow;
    Pow2Word();
  }

  lemma ShrIsQuotient(x: U64, s: nat)
    ensures Shr64(x, s) == x / Pow(2, s)
  {
  }

  lemma JoinHalves(q1: U64, q0: U64)
    requires q1 < TWO32 && q0 < TWO32
    ensures Or64(Shl64(q1, 32), q0) == q1 * TWO32 + q0
  {
    hide Pow, Or64;
    Pow2Word();
    OrParts(q1, q0, 32);
  }

  /** The divisor's top bit is set, and the dividend still fits. */
  lemma NormalizedOperands(x: S128, y: U64, sh: nat)
    requires x.hi < y && sh <= 63 && 0x8000_0000_0000_0000 <= y * Pow(2, sh) < TWO64
    ensures Shl64(y, sh) == y * Pow(2, sh)
    ensures U(Sll(x, sh)) == U(x) * Pow(2, sh) && Sll(x, sh).hi < Shl64(y, sh)
  {
    hide Pow, Sll;
    hide Shl64, U;
    var p := Pow(2, sh);
    ShlFits(y, sh);
    SllIsProduct(x, sh);
    DividendFits(x, y, p);
    HighWordBelow(Sll(x, sh), y * p);
  }

  lemma ShlFits(y: U64, sh: nat)
    requires 0 <= y * Pow(2, sh) < TWO64
    ensures Shl64(y, sh) == y * Pow(2, sh)
  {
    hide Pow;
    DivModUnique(y * Pow(2, sh), TWO64, 0, y * Pow(2, sh));
  }

  lemma DividendFits(x: S128, y: U64, p: int)
    requires x.hi < y && 0 < p && y * p < TWO64
    ensures 0 <= U(x) * p < (y * p) * TWO64
    ensures (U(x) * p) % TWO128 == U(x) * p
  {
    MulMono(U(x) + 1, y * TWO64, p);
    Distribute(p, U(x), 1);
    MulSwap(TWO64, y, p);
    MulMono(0, U(x), p);
    DivModUnique(U(x) * p, TWO128, 0, U(x) * p);
  }

  lemma HighWordBelow(x: S128, y: int)
    requires U(x) < y * TWO64
    ensures x.hi < y
  {
  }

  lemma TwoSteps(x: int, hi: int, num1: int, num0: int, q1: int, q0: int, rem: int, rest: int, y: int)
    requires x == hi * TWO64 + num1 * TWO32 + num0
    requires hi * TWO32 + num1 == q1 * y + rem && rem * TWO32 + num0 == q0 * y + rest
    ensures x == (q1 * TWO32 + q0) * y + rest
  {
    Distribute(y, q1 * TWO32, q0);
    MulAssoc(TWO32, q1, y);
  }

  // 128 / 128 -> 64 bit division

  /** Subtraction with the borrow taken from the low words, as the division writes it out. */
  function SubBorrow(u: S128, v: S128): S128 {
    S128(W64(u.hi as int - (v.hi as int + (if u.lo < v.lo then 1 else 0))), W64(u.lo as int - v.lo as int))
  }

  lemma SubBorrowIsExact(u: S128, v: S128)
    requires U(v) <= U(u)
    ensures U(SubBorrow(u, v)) == U(u) - U(v)
  {
    var borrow := if u.lo < v.lo then 1 else 0;
    W64Small(u.lo as int - v.lo as int + borrow * TWO64);
    W64Small(u.hi as int - v.hi as int - borrow);
  }

  /** The low 128 bits of q * v, as the division writes them out. */
  function LowProduct(q: S128, v: S128): S128 {
    S128(W64(q.hi as int * v.lo + q.lo as int * v.hi + UMulHigh(q.lo, v.lo)), W64(q.lo as int * v.lo))
  }

  lemma LowProductIsProduct(q: S128, v: S128)
    ensures U(LowProduct(q, v)) == (U(q) * U(v)) % TWO128
  {
    hide U, UMulHigh, W64;
    MulUIsProduct(q, v);
    var a: int, b: int := q.lo as int * v.hi, q.hi as int * v.lo;
    NestedWraps(UMulHigh(q.lo, v.lo), a, b);
    assert LowProduct(q, v) == MulU(q, v);
  }

  lemma LowProductExact(q: S128, v: S128)
    requires 0 <= U(q) * U(v) < TWO128
    ensures U(LowProduct(q, v)) == U(q) * U(v)
  {
    hide U, LowProduct;
    LowProductIsProduct(q, v);
  }

  lemma UNonNegative(x: S128)
    ensures 0 <= U(x) < TWO128
  {
  }

  lemma NestedWraps(x: U64, a: int, b: int)
    ensures W64(b + a + x) == AddCross(x, a, b)
  {
    var ka, kb := a / TWO64, b / TWO64;
    var ab: int := W64(a) as int + W64(b);
    var kab := ab / TWO64;
    var total: int := x as int + W64(ab);
    var k := total / TWO64;
    DivModUnique(b + a + x, TWO64, ka + kb + kab + k, AddCross(x, a, b));
  }

  /** The estimate's chain of floors amounts to one division by a slightly smaller divisor. */
  lemma ChainOfFloors(u: int, u1: int, q1: int, ri: int, q0: int, v1: int, w: int)
    requires u1 == u / 2 && 0 <= u && 0 < v1 && 0 < w
    requires u1 == q1 * v1 + ri && 0 <= ri < v1 && q0 == q1 / w
    ensures q0 * (v1 * (2 * w)) <= u < (q0 + 1) * (v1 * (2 * w))
  {
    DivModLaw(q1, w);
    Rearrange(q0, v1, w);
    Rearrange(q0 + 1, v1, w);
    MulMono(q0 * w, q1, v1);
    Distribute(w, q0, 1);
    MulMono(q1 + 1, (q0 + 1) * w, v1);
    Distribute(v1, q1, 1);
  }

  lemma Rearrange(q: int, v1: int, w: int)
    ensures q * (v1 * (2 * w)) == 2 * ((q * w) * v1)
  {
    MulSwap(q, v1, 2 * w);
    MulAssoc(2, q * w, v1);
    assert v1 * (q * (2 * w)) == (2 * (q * w)) * v1 by {
      assert q * (2 * w) == 2 * (q * w);
    }
  }

  /** The normalized divisor without its low word is at most 2w - 1 below the divisor. */
  lemma TruncatedDivisor(v: int, p: int, w: int, v1: int)
    requires 0 < p && 0 < w && p * w == 0x8000_0000_0000_0000
    requires v1 * TWO64 <= v * p < (v1 + 1) * TWO64
    ensures v1 * (2 * w) <= v < v1 * (2 * w) + 2 * w
  {
    var t := v1 * (2 * w);
    ScaleUp(v1, w, p);
    ScaleUp(v1 + 1, w, p);
    Distribute(2 * w, v1, 1);
    if v < t { StrictlyLess(v, t, p); }
    if v >= t + 2 * w { MulMono(t + 2 * w, v, p); }
  }

  lemma ScaleUp(a: int, w: int, p: int)
    requires p * w == 0x8000_0000_0000_0000
    ensures (a * (2 * w)) * p == a * TWO64
  {
    MulAssoc(a, 2 * w, p);
    assert (2 * w) * p == 2 * (p * w);
  }

  /** With it, the estimate is the quotient or one more. */
  lemma EstimateOffByOne(u: int, v: int, t: int, w: int, q0: int)
    requires 0 <= u < TWO128 && 0 < w && t <= v < t + 2 * w
    requires t >= TWO64 * w
    requires 0 <= q0 && q0 * t <= u < (q0 + 1) * t
    ensures u < (q0 + 1) * v
    ensures q0 > 0 ==> (q0 - 1) * v <= u
  {
    MulMono(t, v, q0 + 1);
    if q0 > 0 {
      var d := v - t;
      assert (q0 - 1) * v == q0 * t - t + (q0 - 1) * d by {
        Distribute(q0 - 1, t, d);
        Distribute(t, q0 - 1, 1);
      }
      SlackFits(u, t, w, q0, d);
    }
  }

  lemma SlackFits(u: int, t: int, w: int, q0: int, d: int)
    requires 0 <= u < TWO128 && 0 < w && 0 <= d < 2 * w && 0 < q0 && q0 * t <= u
    requires t >= TWO64 * w
    ensures (q0 - 1) * d <= t
  {
    MulMono(TWO64 * w, t, q0);
    MulSwap(q0, TWO64, w);
    assert q0 * w < TWO64;
    if w == 1 {
      MulMono(d, 1, q0 - 1);
    } else {
      MulMono(d, 2 * w, q0 - 1);
      MulMono(q0 - 1, q0, 2 * w);
      MulSwap(q0, 2, w);
    }
  }

  /** The quotient estimate of `s64_udiv_i128_i128`: correct or one too large. */
  method EstimateQuotient(u: S128, v: S128) returns (q0: S128)
    requires v.hi != 0
    ensures U(u) < (U(q0) + 1) * U(v)
    ensures U(q0) > 0 ==> (U(q0) - 1) * U(v) <= U(u)
  {
    hide Pow, Sll, Srl, Msb, U;
    var n := Clz(v.hi);
    var v1t := Sll(v, n);
    var v1 := v1t.hi;
    var u1 := Srl(u, 1);
    DivisorTop(v, n);
    HalfFits(u);
    var q1, ri := UDiv128By64(u1, v1);
    q0 := Srl(Sll(S128(0, q1), n), 63);
    ghost var p, w := Pow(2, n), Pow(2, 63 - n);
    ShiftsOfEstimate(q1, n);
    UOf(0, q1);
    UBounds(u);
    ChainOfFloors(U(u), U(u1), q1, ri, U(q0), v1, w);
    TruncatedDivisor(U(v), p, w, v1);
    MulMono(0x8000_0000_0000_0000, v1, 2 * w);
    UBounds(q0);
    EstimateOffByOne(U(u), U(v), v1 * (2 * w), w, U(q0));
  }

  lemma UOf(hi: U64, lo: U64)
    ensures U(S128(hi, lo)) == hi * TWO64 + lo
  {
  }

  lemma DivisorTop(v: S128, n: nat)
    requires n <= 63 && 0x8000_0000_0000_0000 <= v.hi * Pow(2, n) < TWO64
    ensures U(Sll(v, n)) == U(v) * Pow(2, n)
    ensures Sll(v, n).hi >= 0x8000_0000_0000_0000
    ensures Sll(v, n).hi * TWO64 <= U(v) * Pow(2, n)
          < (Sll(v, n).hi + 1) * TWO64
  {
    hide Pow, Sll;
    var p := Pow(2, n);
    SllIsProduct(v, n);
    PowAdd(2, n, 64 - n);
    Pow2Word();
    TopBounds(U(v), v.hi, v.lo, p, Pow(2, 64 - n));
    DivModUnique(U(v) * p, TWO128, 0, U(v) * p);
    UBounds(Sll(v, n));
    HighWordAtLeast(Sll(v, n));
  }

  lemma TopBounds(u: int, hi: int, lo: int, p: int, q: int)
    requires 0 < p && p * q == TWO64
    requires u == hi * TWO64 + lo && 0 <= lo < TWO64
    requires 0x8000_0000_0000_0000 <= hi * p < TWO64
    ensures 0x8000_0000_0000_0000 * TWO64 <= u * p < TWO128
  {
    if hi >= q { MulMono(q, hi, p); }
    MulMono(hi + 1, q, p);
    Distribute(p, hi, 1);
    Distribute(p, hi * TWO64, lo);
    MulAssoc(TWO64, hi, p);
    MulMono(0, lo, p);
    StrictlyLess(lo, TWO64, p);
  }

  lemma HighWordAtLeast(x: S128)
    ensures x.hi * TWO64 <= U(x) < (x.hi + 1) * TWO64
    ensures U(x) >= 0x8000_0000_0000_0000 * TWO64 ==> x.hi >= 0x8000_0000_0000_0000
  {
  }

  lemma HalfFits(u: S128)
    ensures U(Srl(u, 1)) == U(u) / 2 && Srl(u, 1).hi < 0x8000_0000_0000_0000
  {
    hide Pow, Srl;
    Pow2Small();
    SrlIsQuotient(u, 1);
    UBounds(u);
  }

  /** `q1 << n >> 63` loses nothing on the way up. */
  lemma ShiftsOfEstimate(q1: U64, n: nat)
    requires n <= 63
    ensures Pow(2, n) * Pow(2, 63 - n) == 0x8000_0000_0000_0000 && Pow(2, n) > 0 && Pow(2, 63 - n) > 0
    ensures U(Srl(Sll(S128(0, q1), n), 63)) == q1 / Pow(2, 63 - n)
  {
    hide Pow, Sll, Srl;
    var p, w := Pow(2, n), Pow(2, 63 - n);
    PowAdd(2, n, 63 - n);
    PowAdd(2, 63, 1);
    Pow2Small();
    Pow2Word();
    SllIsProduct(S128(0, q1), n);
    SrlIsQuotient(Sll(S128(0, q1), n), 63);
    MulMono(1, w, p);
    MulMono(q1, 0xffff_ffff_ffff_ffff, p);
    MulMono(0, q1, p);
    DivModUnique(q1 * p, TWO128, 0, q1 * p);
    DivModLaw(q1, w);
    QuotientOfProduct(q1, q1 / w, q1 % w, p, w);
  }

  lemma QuotientOfProduct(x: int, a: int, b: int, p: int, w: int)
    requires 0 < p && 0 < w && x == a * w + b && 0 <= b < w
    ensures (x * p) / (p * w) == a
  {
    Distribute(p, a * w, b);
    MulAssoc(a, w, p);
    MulMono(b + 1, w, p);
    Distribute(p, b, 1);
    MulMono(0, b, p);
    DivModUnique(x * p, p * w, a, b * p);
  }

  /** `q0 - 1` on two words, with the borrow. */
  function Decrement(q: S128): (r: S128)
    ensures U(q) > 0 ==> U(r) == U(q) - 1
  {
    S128(W64(q.hi as int - (if q.lo == 0 then 1 else 0)), W64(q.lo as int - 1))
  }

  /** `q0 + 1` on two words, with the carry. */
  function Increment(q: S128): (r: S128)
    ensures U(q) + 1 < TWO128 ==> U(r) == U(q) + 1
  {
    var lo := W64(q.lo as int + 1);
    S128(W64(q.hi as int + (if lo == 0 then 1 else 0)), lo)
  }

  lemma ZeroWords(q: S128)
    ensures q.hi != 0 || q.lo != 0 <==> U(q) > 0
  {
  }

  lemma AtLeast(a: S128, b: S128)
    ensures a.hi > b.hi || (a.hi == b.hi && a.lo >= b.lo) <==> U(a) >= U(b)
  {
  }

  /** One less than the estimate is the quotient or one too small. */
  lemma OneBack(u: int, v: int, estimate: int, q: int)
    requires 0 <= u && 0 < v && 0 <= estimate && u < (estimate + 1) * v
    requires estimate > 0 ==> (estimate - 1) * v <= u
    requires q == if estimate > 0 then estimate - 1 else 0
    ensures 0 <= q * v <= u < q * v + 2 * v
  {
    MulMono(0, q, v);
    Distribute(v, estimate, 1);
    Distribute(v, estimate, -1);
  }

  lemma QuotientIsWord(u: int, q: int, v: S128)
    requires v.hi != 0 && 0 <= q && q * U(v) <= u < TWO128
    ensures q < TWO64
  {
    if q >= TWO64 {
      MulMono(TWO64, q, U(v));
    }
  }

  /** `s64_udiv_i128_i128`: the exact quotient and remainder for every divisor of at least 2^64. */
  method UDiv128By128(u: S128, v: S128) returns (q: U64, r: S128)
    requires v.hi != 0
    ensures U(u) == q * U(v) + U(r) && 0 <= U(r) < U(v)
  {
    hide U, S, SubBorrow, LowProduct, W64;
    var q0 := EstimateQuotient(u, v);
    ghost var estimate := U(q0);
    UNonNegative(q0);
    UNonNegative(u);
    ZeroWords(v);
    ZeroWords(q0);
    if q0.hi != 0 || q0.lo != 0 {
      q0 := Decrement(q0);
    }
    OneBack(U(u), U(v), estimate, U(q0));
    var q0v := LowProduct(q0, v);
    LowProductExact(q0, v);
    ghost var product := U(q0) * U(v);
    r := SubBorrow(u, q0v);
    SubBorrowIsExact(u, q0v);
    QuotientIsWord(U(u), U(q0), v);
    q0, r := CorrectOnce(q0, r, v, U(u), product);
    UNonNegative(r);
    UNonNegative(q0);
    QuotientIsWord(U(u), U(q0), v);
    q := q0.lo;
    OneWord(q0);
    SameFactor(q, U(q0), U(v));
  }

  /** The final correction: a remainder that is still too large means one more. */
  method CorrectOnce(q0: S128, rem: S128, v: S128, ghost u: int, ghost product: int) returns (q: S128, r: S128)
    requires product == U(q0) * U(v) && u == product + U(rem) && U(rem) < 2 * U(v)
    requires U(q0) < TWO64
    ensures u == U(q) * U(v) + U(r) && U(r) < U(v)
  {
    hide U, SubBorrow, W64;
    q, r := q0, rem;
    AtLeast(r, v);
    if r.hi > v.hi || (r.hi == v.hi && r.lo >= v.lo) {
      Distribute(U(v), U(q0), 1);
      q := Increment(q0);
      SubBorrowIsExact(rem, v);
      r := SubBorrow(rem, v);
    }
  }

  lemma OneWord(q: S128)
    requires U(q) < TWO64
    ensures U(q) == q.lo
  {
  }

  /** `i128_divmodu` without a native type: exact in every branch for a nonzero divisor. */
  method DivModU(u: S128, v: S128) returns (q: S128, r: S128)
    ensures U(v) == 0 ==> U(q) == TWO128 - 1 && r == u
    ensures U(v) != 0 ==> U(u) == U(q) * U(v) + U(r) && 0 <= U(r) < U(v)
  {
    hide U, S;
    ZeroWords(v);
    UNonNegative(u);
    UNonNegative(v);
    UOf(u.hi, u.lo);
    UOf(v.hi, v.lo);
    if v.hi == 0 && v.lo == 0 {
      AllOnes();
      q, r := S128(0xffff_ffff_ffff_ffff, 0xffff_ffff_ffff_ffff), u;
    } else if u.hi == 0 {
      if v.hi == 0 {
        q, r := DivWords(u.lo, v.lo);
        SameFactor(v.lo, U(v), U(q));
      } else {
        UOf(0, 0);
        SameFactor(U(S128(0, 0)), 0, U(v));
        q, r := S128(0, 0), u;
      }
    } else if v.hi == 0 {
      q, r := DivByWord(u, v.lo);
      SameFactor(v.lo, U(v), U(q));
    } else {
      var lo, rem := UDiv128By128(u, v);
      UOf(0, lo);
      SameFactor(lo, U(S128(0, lo)), U(v));
      q, r := S128(0, lo), rem;
    }
  }

  /** Both operands fit in a word. */
  method DivWords(x: U64, y: U64) returns (q: S128, r: S128)
    requires y > 0
    ensures x == U(q) * y + U(r) && 0 <= U(r) < y
  {
    DivModLaw(x, y);
    QuotientBounds(x, y);
    q, r := S128(0, x / y), S128(0, x % y);
  }

  /** The divisor fits in a word: one step, or two when the quotient needs both words. */
  method DivByWord(u: S128, y: U64) returns (q: S128, r: S128)
    requires y > 0
    ensures U(u) == U(q) * y + U(r) && 0 <= U(r) < y
  {
    hide U;
    UOf(u.hi, u.lo);
    if u.hi < y {
      var lo, rem := UDiv128By64(u, y);
      UOf(0, lo);
      UOf(0, rem);
      q, r := S128(0, lo), S128(0, rem);
    } else {
      UOf(0, u.hi);
      var hi, rem1 := UDiv128By64(S128(0, u.hi), y);
      UOf(rem1, u.lo);
      var lo, rem := UDiv128By64(S128(rem1, u.lo), y);
      LongDivision(u.hi, u.lo, hi, rem1, lo, rem, y);
      UOf(hi, lo);
      UOf(0, rem);
      q, r := S128(hi, lo), S128(0, rem);
    }
  }

  lemma AllOnes()
    ensures U(S128(0xffff_ffff_ffff_ffff, 0xffff_ffff_ffff_ffff)) == TWO128 - 1
  {
  }

  /** Two words divided by one, high word first. */
  lemma LongDivision(u1: int, u0: int, q1: int, r1: int, q0: int, r0: int, v: int)
    requires u1 == q1 * v + r1 && r1 * TWO64 + u0 == q0 * v + r0
    ensures u1 * TWO64 + u0 == (q1 * TWO64 + q0) * v + r0
  {
    Distribute(v, q1 * TWO64, q0);
    MulAssoc(TWO64, q1, v);
  }

  // Signed division

  function SignMask(x: S128): S128 {
    Sra(x, 127)
  }

  lemma SignMaskIsSign(x: S128)
    ensures SignMask(x) == if S(x) < 0 then S128(0xffff_ffff_ffff_ffff, 0xffff_ffff_ffff_ffff) else S128(0, 0)
  {
    hide Pow;
    Pow2Word();
    PowAdd(2, 63, 1);
    Pow2Small();
    assert Pow(2, 63) == 0x8000_0000_0000_0000;
    UBounds(x);
  }

  /** `(x ^ mask) - mask` for a mask of all zeros or all ones. */
  function NegateBy(x: S128, mask: S128): S128 {
    Sub128(Xor128(x, mask), mask)
  }

  lemma NegateByMask(x: S128)
    ensures U(NegateBy(x, S128(0, 0))) == U(x)
    ensures U(NegateBy(x, S128(0xffff_ffff_ffff_ffff, 0xffff_ffff_ffff_ffff))) == (-U(x)) % TWO128
  {
    hide Sub128, Xor128;
    var zeros, ones := S128(0, 0), S128(0xffff_ffff_ffff_ffff, 0xffff_ffff_ffff_ffff);
    XorMask(x);
    SubIsExact(Xor128(x, zeros), zeros);
    SubIsExact(Xor128(x, ones), ones);
    UBounds(x);
    assert U(ones) == TWO128 - 1;
    ModShift(-U(x));
  }

  lemma ModShift(x: int)
    ensures (x + TWO128 - 1 - (TWO128 - 1)) % TWO128 == x % TWO128
  {
  }

  lemma XorMask(x: S128)
    ensures U(Xor128(x, S128(0, 0))) == U(x)
    ensures U(Xor128(x, S128(0xffff_ffff_ffff_ffff, 0xffff_ffff_ffff_ffff))) == TWO128 - 1 - U(x)
  {
    hide Pow, Word;
    Pow2Word();
    WordUnits(x.hi, 64);
    WordUnits(x.lo, 64);
  }

  /** Two words that hold `value` modulo 2^128, read as a signed number. */
  lemma SignedOf(x: S128, value: int)
    requires U(x) == value % TWO128 && -(TWO128 / 2) <= value < TWO128 / 2
    ensures S(x) == value
  {
    UBounds(x);
    if value < 0 {
      DivModUnique(value, TWO128, -1, value + TWO128);
    } else {
      DivModUnique(value, TWO128, 0, value);
    }
  }

  lemma MagnitudeOf(x: S128)
    ensures U(NegateBy(x, SignMask(x))) == Abs(S(x))
    ensures -(TWO128 / 2) <= S(x) < TWO128 / 2
  {
    hide NegateBy, SignMask;
    SignMaskIsSign(x);
    NegateByMask(x);
    UBounds(x);
    if S(x) < 0 { DivModUnique(-U(x), TWO128, -1, TWO128 - U(x)); }
  }

  /** `us ^ vs` is all ones exactly when the signs differ. */
  lemma MaskOfBoth(u: S128, v: S128)
    ensures Xor128(SignMask(u), SignMask(v))
         == if (S(u) < 0) != (S(v) < 0) then S128(0xffff_ffff_ffff_ffff, 0xffff_ffff_ffff_ffff) else S128(0, 0)
  {
    hide Word, Pow, S, SignMask;
    SignMaskIsSign(u);
    SignMaskIsSign(v);
    Pow2Word();
    WordUnits(0, 64);
    WordUnits(0xffff_ffff_ffff_ffff, 64);
    WordSymmetric(Xor, 0, 0xffff_ffff_ffff_ffff, 64);
  }

  lemma NegateIsSigned(x: S128, negative: bool)
    ensures var mask := if negative then S128(0xffff_ffff_ffff_ffff, 0xffff_ffff_ffff_ffff) else S128(0, 0);
      var value := if negative then -U(x) else U(x);
      -(TWO128 / 2) <= value < TWO128 / 2 ==> S(NegateBy(x, mask)) == value
    ensures U(x) == TWO128 / 2 ==> S(NegateBy(x, S128(0, 0))) == -(TWO128 / 2)
  {
    hide NegateBy;
    NegateByMask(x);
    UBounds(x);
    UBounds(NegateBy(x, S128(0, 0)));
    var mask := if negative then S128(0xffff_ffff_ffff_ffff, 0xffff_ffff_ffff_ffff) else S128(0, 0);
    var value := if negative then -U(x) else U(x);
    if -(TWO128 / 2) <= value < TWO128 / 2 {
      if !negative { DivModUnique(value, TWO128, 0, value); }
      SignedOf(NegateBy(x, mask), value);
    }
  }

  /** Which signed results come out of the division of the magnitudes. */
  lemma SignedOutcome(a: int, b: int, q: int, r: int, sq: int, sr: int, h: int)
    requires 1 < h && -h <= a < h && -h <= b < h && 0 <= q && 0 <= r
    requires if b == 0 then r == Abs(a) else Abs(a) == q * Abs(b) + r && r < Abs(b)
    requires (a < 0) != (b < 0) ==> -q >= -h ==> sq == -q
    requires (a < 0) == (b < 0) ==> if q < h then sq == q else q == h ==> sq == -h
    requires if a < 0 then -r >= -h ==> sr == -r else r < h ==> sr == r
    ensures b == 0 ==> sr == a
    ensures b != 0 ==> (Truncates(a, b, sq, sr) <==> !(a == -h && b == -1))
    ensures a == -h && b == -1 ==> sq == -h && sr == 0
  {
    if b != 0 {
      MulMono(1, Abs(b), q);
      TruncatesSigned(Abs(a), Abs(b), q, r, a < 0, b < 0);
      if q == h {
        if Abs(b) >= 2 { MulMono(2, Abs(b), q); }
      }
    }
  }

  /**
  `i128_divmod`: truncating division, except for the one quotient that does not fit,
  where it wraps around to the smallest number.
   */
  method DivMod(u: S128, v: S128) returns (q: S128, r: S128)
    ensures S(v) == 0 ==> S(r) == S(u) && S(q) == if S(u) < 0 then 1 else -1
    ensures S(v) != 0 ==>
      (Truncates(S(u), S(v), S(q), S(r)) <==> !(S(u) == -(TWO128 / 2) && S(v) == -1))
    ensures S(u) == -(TWO128 / 2) && S(v) == -1 ==> S(q) == -(TWO128 / 2) && S(r) == 0
  {
    hide S, U, SignMask, Xor128, NegateBy, Truncates;
    var us, vs := SignMask(u), SignMask(v);
    var rs := Xor128(us, vs);
    MaskOfBoth(u, v);
    SignMaskIsSign(u);
    MagnitudeOf(u);
    MagnitudeOf(v);
    var q', r' := DivModU(NegateBy(u, us), NegateBy(v, vs));
    q := NegateBy(q', rs);
    r := NegateBy(r', us);
    NegateIsSigned(q', (S(u) < 0) != (S(v) < 0));
    NegateIsSigned(r', S(u) < 0);
    UNonNegative(q');
    UNonNegative(r');
    SignedOutcome(S(u), S(v), U(q'), U(r'), S(q), S(r), TWO128 / 2);
    if S(v) == 0 { NegatedOnes(q', S(u) < 0); }
  }

  lemma NegatedOnes(x: S128, negative: bool)
    requires U(x) == TWO128 - 1
    ensures var mask := if negative then S128(0xffff_ffff_ffff_ffff, 0xffff_ffff_ffff_ffff) else S128(0, 0);
      S(NegateBy(x, mask)) == if negative then 1 else -1
  {
    hide NegateBy;
    NegateByMask(x);
    var mask := if negative then S128(0xffff_ffff_ffff_ffff, 0xffff_ffff_ffff_ffff) else S128(0, 0);
    if negative { DivModUnique(-U(x), TWO128, -1, 1); } else { DivModUnique(-1, TWO128, -1, TWO128 - 1); }
    SignedOf(NegateBy(x, mask), if negative then 1 else -1);
  }
}
