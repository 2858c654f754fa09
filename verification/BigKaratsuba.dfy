/**
Karatsuba multiplication with its driver for lopsided operands
(`include/lstd/big_integer.h`, lines 550-796). See Knuth, The Art of Computer
Programming, volume 2, section 4.3.3.
 */
module BigKaratsuba {
  import opened Powers
  import opened BigDigits
  import opened BigIntegers
  import opened BigAddSub
  import opened BigMul

  const KARATSUBA_CUTOFF: nat := 70
  const KARATSUBA_SQUARE_CUTOFF: nat := 140

  /** `memcpy` between two digit buffers. */
  method CopyDigits(dst: array<Digit>, at: nat, src: array<Digit>, from: nat, n: nat)
    requires dst != src && at + n <= dst.Length && from + n <= src.Length
    modifies dst
    ensures dst[..at] == old(dst[..at]) && dst[at + n..] == old(dst[at + n..])
    ensures dst[at..at + n] == src[from..from + n]
  {
    forall k | 0 <= k < n {
      dst[at + k] := src[from + k];
    }
  }

  /** `memset0` of a stretch of a digit buffer. */
  method ClearDigits(dst: array<Digit>, at: nat, n: nat)
    requires at + n <= dst.Length
    modifies dst
    ensures dst[..at] == old(dst[..at]) && dst[at + n..] == old(dst[at + n..])
    ensures forall k :: at <= k < at + n ==> dst[k] == 0
  {
    forall k | 0 <= k < n {
      dst[at + k] := 0;
    }
  }

  /** Half of `kmul_split`: a normalized copy of `n` digits. */
  method CopySlice(src: array<Digit>, from: nat, n: nat) returns (part: BigInteger, asserted: bool)
    requires from + n <= src.Length
    ensures asserted <==> n > 0
    ensures fresh(part) && part.Valid() && fresh(part.Digits) && part.Normalized() && part.Compact()
    ensures 0 <= part.Size <= n
    ensures part.Magnitude() == V(src[from..from + n])
    ensures n > 0 && src[from + n - 1] != 0 ==> part.Size == n
  {
    hide V, Lift;
    part, asserted := MakeRoom(n);
    CopyDigits(part.Digits, 0, src, from, n);
    part.Size := n;
    ghost var s := src[from..from + n];
    assert part.Mag() == part.Digits[0..0 + n] == s;
    if n > 0 { assert s[n - 1] == src[from + n - 1]; }
    part.Normalize();
  }

  /** `kmul_split`: |n| == high * BASE^size + low, with digits to ask for in both unless one is empty. */
  method KMulSplit(n: BigInteger, size: nat) returns (high: BigInteger, low: BigInteger, asserted: bool)
    requires n.Valid()
    ensures asserted <==> 0 < size < n.Len()
    ensures fresh(high) && high.Valid() && fresh(high.Digits) && high.Normalized() && high.Compact() && high.Size >= 0
    ensures fresh(low) && low.Valid() && fresh(low.Digits) && low.Normalized() && low.Compact() && low.Size >= 0
    ensures low.Len() <= size && high.Len() <= if size < n.Len() then n.Len() - size else 0
    ensures n.Magnitude() == low.Magnitude() + Lift(high.Magnitude(), size)
    ensures n.Normalized() && size < n.Len() ==> high.Size > 0
  {
    hide V, Lift;
    var sizen := n.Len();
    var sizelo := if sizen < size then sizen else size;
    var sizehi := sizen - sizelo;
    var assertedLow;
    low, assertedLow := CopySlice(n.Digits, 0, sizelo);
    high, asserted := CopySlice(n.Digits, sizelo, sizehi);
    asserted := asserted && assertedLow;
    SplitDigits(n.Digits[..], sizen, size);
  }

  lemma SplitDigits(s: seq<Digit>, n: nat, size: nat)
    requires n <= |s|
    ensures var lo := if n < size then n else size;
      V(s[..n]) == V(s[0..lo]) + Lift(V(s[lo..lo + (n - lo)]), size)
  {
    hide V, Lift;
    var lo := if n < size then n else size;
    VSplit(s[..n], lo);
    assert s[..n][..lo] == s[0..lo] && s[..n][lo..] == s[lo..lo + (n - lo)];
    if n <= size {
      VZero(s[lo..lo + (n - lo)]);
      LiftZero(size);
      LiftZero(lo);
    }
  }

  /** Steps 2 and 3: the high product at 2 * shift, the low product at 0, zeros elsewhere. */
  method PlaceProducts(z: array<Digit>, n: nat, shift: nat, t1: array<Digit>, n1: nat, t2: array<Digit>, n2: nat)
    requires z != t1 && z != t2 && n <= z.Length && n1 <= t1.Length && n2 <= t2.Length
    requires 2 * shift + n1 <= n && n2 <= 2 * shift
    modifies z
    ensures V(z[..n]) == V(t2[..n2]) + Lift(V(t1[..n1]), 2 * shift)
  {
    hide V, Lift;
    ghost var high, low := t1[..n1], t2[..n2];
    CopyDigits(z, 2 * shift, t1, 0, n1);
    ClearDigits(z, 2 * shift + n1, n - 2 * shift - n1);
    ghost var s := z[..];
    assert s[2 * shift..2 * shift + n1] == high;
    CopyDigits(z, 0, t2, 0, n2);
    ghost var u := z[..];
    assert u[..n2] == low && u[n2..] == s[n2..];
    ClearDigits(z, n2, 2 * shift - n2);
    assert z[n2 + (2 * shift - n2)..] == u[n2 + (2 * shift - n2)..];
    Placed(s, u, z[..], n, 2 * shift, high, low);
    assert z[..][..n] == z[..n];
  }

  /** The layout the three copies leave behind. */
  lemma Placed(s: seq<Digit>, u: seq<Digit>, z: seq<Digit>, n: nat, at: nat, high: seq<Digit>, low: seq<Digit>)
    requires |s| == |u| == |z| && at + |high| <= n <= |s| && |low| <= at
    requires s[at..at + |high|] == high && forall k :: at + |high| <= k < n ==> s[k] == 0
    requires u[..|low|] == low && u[|low|..] == s[|low|..]
    requires z[..|low|] == u[..|low|] && z[at..] == u[at..] && forall k :: |low| <= k < at ==> z[k] == 0
    ensures V(z[..n]) == V(low) + Lift(V(high), at)
  {
    hide V, Lift;
    var lower, upper := z[..at], z[at..n];
    assert z[..n][..at] == lower && z[..n][at..] == upper;
    VSplit(z[..n], at);
    assert lower[..|low|] == low;
    VTrim(lower, |low|);
    assert u[at..] == u[|low|..][at - |low|..] == s[at..];
    assert upper == z[at..][..n - at] == s[at..n];
    assert upper[..|high|] == high;
    forall k | |high| <= k < |upper| ensures upper[k] == 0 {
      assert upper[k] == s[at + k];
    }
    VTrim(upper, |high|);
  }

  /** Steps 4 and 5: both products are subtracted at `shift`; a borrow out of the top is ignored. */
  method SubtractProducts(z: array<Digit>, n: nat, shift: nat, t1: array<Digit>, n1: nat, t2: array<Digit>, n2: nat)
      returns (ghost wraps: int)
    requires z != t1 && z != t2 && shift <= n <= z.Length
    requires n1 <= t1.Length && n2 <= t2.Length && n1 <= n - shift && n2 <= n - shift
    modifies z
    ensures V(z[..n]) == old(V(z[..n])) - Lift(V(t1[..n1]) + V(t2[..n2]), shift) + Lift(wraps, n)
  {
    hide AddedTo, V, Lift;
    ghost var s, p1, p2 := z[..], V(t1[..n1]), V(t2[..n2]);
    assert s[..n] == z[..n];
    var borrow2 := VISub(z, shift, n - shift, t2, n2);
    AddedWhole(s, z[..], shift, n - shift, n, Lift(borrow2, n - shift) - p2);
    s := z[..];
    var borrow1 := VISub(z, shift, n - shift, t1, n1);
    AddedWhole(s, z[..], shift, n - shift, n, Lift(borrow1, n - shift) - p1);
    wraps := borrow1 + borrow2;
    assert z[..][..n] == z[..n];
    LiftAdd(Lift(borrow2, n - shift), p2, shift);
    LiftAdd(Lift(borrow1, n - shift), p1, shift);
    LiftLift(borrow1, n - shift, shift);
    LiftLift(borrow2, n - shift, shift);
    LiftAdd(borrow1, borrow2, n);
    LiftAdd(p1, p2, shift);
  }

  /** Step 6: t3 is added at `shift`; a carry out of the top is ignored. */
  method AddMiddle(z: array<Digit>, n: nat, shift: nat, t3: array<Digit>, n3: nat) returns (ghost wraps: int)
    requires z != t3 && shift <= n <= z.Length && n3 <= t3.Length && n3 <= n - shift
    modifies z
    ensures V(z[..n]) == old(V(z[..n])) + Lift(V(t3[..n3]), shift) - Lift(wraps, n)
  {
    hide AddedTo, V, Lift;
    ghost var s, p3 := z[..], V(t3[..n3]);
    assert s[..n] == z[..n];
    var carry := VIAdd(z, shift, n - shift, t3, n3);
    AddedWhole(s, z[..], shift, n - shift, n, p3 - Lift(carry, n - shift));
    wraps := carry;
    assert z[..][..n] == z[..n];
    LiftAdd(p3, Lift(carry, n - shift), shift);
    LiftLift(carry, n - shift, shift);
  }

  /** Two n-digit numbers that differ by a multiple of BASE^n are the same. */
  lemma WrapsCancel(v: int, exact: int, wraps: int, n: nat)
    requires 0 <= v < P(n) && 0 <= exact < P(n) && v == exact + Lift(wraps, n)
    ensures v == exact
  {
    LiftZero(n);
    if wraps > 0 {
      LiftMono(1, wraps, n);
    } else if wraps < 0 {
      LiftMono(wraps, -1, n);
      LiftNeg(1, n);
    }
  }

  /** (ah*X + al) * (bh*X + bl) through three products, X = BASE^s. */
  lemma KaratsubaIdentity(ah: int, al: int, bh: int, bl: int, s: nat)
    ensures (al + Lift(ah, s)) * (bl + Lift(bh, s))
      == al * bl + Lift(ah * bh, 2 * s) + Lift((ah + al) * (bh + bl) - (ah * bh + al * bl), s)
  {
    hide Lift;
    LiftMul(ah, 1, s);
    LiftMul(bh, 1, s);
    LiftMul(ah * bh, 1, 2 * s);
    PAdd(s, s);
    LiftMul((ah + al) * (bh + bl) - (ah * bh + al * bl), 1, s);
    Foil(ah, al, bh, bl, Lift(1, s));
  }

  lemma Foil(ah: int, al: int, bh: int, bl: int, x: int)
    ensures (al + ah * x) * (bl + bh * x)
      == al * bl + (ah * bh) * (x * x) + ((ah + al) * (bh + bl) - (ah * bh + al * bl)) * x
  {
  }

  lemma ProductBound(a: int, b: int, m: nat, n: nat)
    requires 0 <= a < P(m) && 0 <= b < P(n)
    ensures 0 <= a * b < P(m + n)
  {
    hide Lift;
    PAdd(m, n);
    PPositive(m);
    PPositive(n);
    MulMono(0, a, b);
    MulMono(a + 1, P(m), P(n));
    MulMono(b + 1, P(n), a);
    Distribute(P(n), a, 1);
    Distribute(a, b, 1);
  }

  /**
  "Why we can't run out of room": (ah + al) * (bh + bl) fits in the
  sizea + sizeb - shift digits above `shift`.
   */
  lemma MiddleFits(ah: int, al: int, bh: int, bl: int, sizea: nat, sizeb: nat)
    requires sizea <= sizeb < 2 * sizea && 2 < sizea
    requires 0 <= ah < P(sizea - sizeb / 2) && 0 <= al < P(sizeb / 2)
    requires 0 <= bh < P(sizeb - sizeb / 2) && 0 <= bl < P(sizeb / 2)
    ensures 0 <= (ah + al) * (bh + bl) < P(sizea + sizeb - sizeb / 2)
  {
    hide Lift, P;
    var f, c := sizeb / 2, sizeb - sizeb / 2;
    var top := if sizea == sizeb then c else f;
    PMonotone(sizea - f, top);
    PMonotone(f, top);
    PMonotone(f, c);
    FourFits(ah + al, bh + bl, top, c);
    PMonotone(top + c + 1, sizea + c);
  }

  /** Two sums of two numbers each: the product has two bits more than the digits say. */
  lemma FourFits(a: int, b: int, m: nat, n: nat)
    requires 0 <= a < 2 * P(m) && 0 <= b < 2 * P(n)
    ensures 0 <= a * b < P(m + n + 1)
  {
    hide Lift;
    PPositive(m);
    PPositive(n);
    PAdd(m, n);
    MulMono(0, a, b);
    MulMono(a, 2 * P(m), b);
    MulMono(b, 2 * P(n), 2 * P(m));
    TwiceTwice(P(m), P(n));
    PPositive(m + n);
    LiftUnfold(1, m + n + 1);
  }

  lemma TwiceTwice(p: int, q: int)
    ensures (2 * p) * (2 * q) == 4 * (p * q)
  {
  }

  /**
  What the multiplication driver needs of its operands: the shorter one must be
  normalized. Only a slice as long as the other operand may have zeros at the top.
   */
  ghost predicate Multipliable(a: BigInteger, b: BigInteger)
    reads a, a.Digits, b, b.Digits
  {
    a.Valid() && b.Valid() && a.Normalized() && (b.Normalized() || a.Len() == b.Len())
  }

  /** `k_mul`: the product of the magnitudes. */
  method KMul(lhs: BigInteger, rhs: BigInteger) returns (result: BigInteger)
    requires Multipliable(lhs, rhs)
    ensures fresh(result) && result.Valid() && fresh(result.Digits) && result.Normalized() && result.Compact()
    ensures 0 <= result.Size <= lhs.Len() + rhs.Len()
    ensures result.Magnitude() == lhs.Magnitude() * rhs.Magnitude()
    decreases lhs.Len() + rhs.Len(), 3
  {
    hide V, Lift;
    var a, b := lhs, rhs;
    if a.Len() > b.Len() { a, b := b, a; }
    var same := AreEqual(a, b);
    var i := if same then KARATSUBA_SQUARE_CUTOFF else KARATSUBA_CUTOFF;
    if a.Len() <= i {
      if a.Len() == 0 {
        result := MakeBig(0);
        MagnitudeBounds(a);
        MagnitudeBounds(result);
      } else {
        var asserted;
        result, asserted := XMul(a, b);
        assert asserted;
      }
    } else if 2 * a.Len() <= b.Len() {
      result := KLopsidedMul(a, b);
    } else {
      result := Karatsuba(a, b);
    }
  }

  /** Both operands split at `shift`; operands found equal share their halves. */
  method SplitOperands(a: BigInteger, b: BigInteger, shift: nat)
      returns (ah: BigInteger, al: BigInteger, bh: BigInteger, bl: BigInteger, same: bool)
    requires Multipliable(a, b) && 0 < shift < a.Len() <= b.Len()
    ensures fresh(ah) && fresh(ah.Digits) && fresh(al) && fresh(al.Digits)
    ensures fresh(bh) && fresh(bh.Digits) && fresh(bl) && fresh(bl.Digits)
    ensures Multipliable(ah, bh) && Multipliable(al, bl) && 0 < ah.Len()
    ensures a.Magnitude() == al.Magnitude() + Lift(ah.Magnitude(), shift)
    ensures b.Magnitude() == bl.Magnitude() + Lift(bh.Magnitude(), shift)
    ensures ah.Len() <= a.Len() - shift && al.Len() <= shift
    ensures bh.Len() <= b.Len() - shift && bl.Len() <= shift
    ensures same ==> bh == ah && bl == al
  {
    hide V, Lift, P, Trimmed;
    same := AreEqual(a, b);
    ah, al, bh, bl := Halves(a, b, shift, same);
  }

  /** The halves of both operands, for every pair of equal numbers as well. */
  method Halves(a: BigInteger, b: BigInteger, shift: nat, same: bool)
      returns (ah: BigInteger, al: BigInteger, bh: BigInteger, bl: BigInteger)
    requires Multipliable(a, b) && 0 < shift < a.Len() <= b.Len()
    requires same ==> a.Mag() == b.Mag()
    ensures fresh(ah) && fresh(ah.Digits) && fresh(al) && fresh(al.Digits)
    ensures fresh(bh) && fresh(bh.Digits) && fresh(bl) && fresh(bl.Digits)
    ensures Multipliable(ah, bh) && Multipliable(al, bl) && 0 < ah.Len()
    ensures a.Magnitude() == al.Magnitude() + Lift(ah.Magnitude(), shift)
    ensures b.Magnitude() == bl.Magnitude() + Lift(bh.Magnitude(), shift)
    ensures ah.Len() <= a.Len() - shift && al.Len() <= shift
    ensures bh.Len() <= b.Len() - shift && bl.Len() <= shift
    ensures same ==> bh == ah && bl == al
  {
    hide V, Lift, P, Trimmed;
    var asserted;
    ah, al, asserted := KMulSplit(a, shift);
    assert asserted;
    bh, bl := ah, al;
    if !same {
      bh, bl, asserted := KMulSplit(b, shift);
      assert asserted;
    }
  }

  /**
  The part of `k_mul` for operands of similar sizes. The subtractions and the addition
  at `shift` work modulo BASE^(sizea + sizeb) and still end at the exact product.
   */
  method Karatsuba(a: BigInteger, b: BigInteger) returns (result: BigInteger)
    requires Multipliable(a, b) && KARATSUBA_CUTOFF < a.Len() <= b.Len() < 2 * a.Len()
    ensures fresh(result) && result.Valid() && fresh(result.Digits) && result.Normalized() && result.Compact()
    ensures 0 <= result.Size <= a.Len() + b.Len()
    ensures result.Magnitude() == a.Magnitude() * b.Magnitude()
    decreases a.Len() + b.Len(), 2
  {
    hide V, Lift, P, Trimmed;
    var sizea, sizeb := a.Len(), b.Len();
    var shift := sizeb / 2;
    var ah, al, bh, bl, same := SplitOperands(a, b, shift);
    OperandBounds(a, b);
    HalfBounds(sizea, sizeb, ah, al, bh, bl);
    ghost var borrows;
    result, borrows := KaratsubaOuter(ah, al, bh, bl, sizea + sizeb, shift);
    KaratsubaInner(result, ah, al, bh, bl, same, sizea, sizeb, borrows);
  }

  lemma OperandBounds(a: BigInteger, b: BigInteger)
    requires a.Valid() && b.Valid()
    ensures 0 <= a.Magnitude() < P(a.Len()) && 0 <= b.Magnitude() < P(b.Len())
  {
    MagnitudeBounds(a);
    MagnitudeBounds(b);
  }

  /** Step 6: the product of the sums, added at `shift`, completes the product. */
  method KaratsubaInner(result: BigInteger, ah: BigInteger, al: BigInteger, bh: BigInteger, bl: BigInteger,
                        same: bool, sizea: nat, sizeb: nat, ghost borrows: int)
    requires result.Valid() && result.Size == sizea + sizeb
    requires KARATSUBA_CUTOFF < sizea <= sizeb < 2 * sizea
    requires ah.Valid() && al.Valid() && bh.Valid() && bl.Valid()
    requires {result} !! {ah, al, bh, bl}
    requires result.Digits !in {ah.Digits, al.Digits, bh.Digits, bl.Digits}
    requires same ==> bh == ah && bl == al
    requires ah.Len() <= sizea - sizeb / 2 && al.Len() <= sizeb / 2
    requires bh.Len() <= sizeb - sizeb / 2 && bl.Len() <= sizeb / 2
    requires 0 <= al.Magnitude() + Lift(ah.Magnitude(), sizeb / 2) < P(sizea)
    requires 0 <= bl.Magnitude() + Lift(bh.Magnitude(), sizeb / 2) < P(sizeb)
    requires HalfBounded(sizea, sizeb, ah, al, bh, bl)
    requires result.Magnitude()
          == al.Magnitude() * bl.Magnitude() + Lift(ah.Magnitude() * bh.Magnitude(), 2 * (sizeb / 2))
             - Lift(ah.Magnitude() * bh.Magnitude() + al.Magnitude() * bl.Magnitude(), sizeb / 2)
             + Lift(borrows, sizea + sizeb)
    modifies result, result.Digits
    ensures result.Valid() && result.Normalized() && result.Compact() && 0 <= result.Size <= sizea + sizeb
    ensures result.Digits == old(result.Digits) || fresh(result.Digits)
    ensures result.Magnitude()
         == old((al.Magnitude() + Lift(ah.Magnitude(), sizeb / 2)) * (bl.Magnitude() + Lift(bh.Magnitude(), sizeb / 2)))
    decreases sizea + sizeb, 1
  {
    hide V, Lift, P, Trimmed, HalfBounded;
    var n, shift := sizea + sizeb, sizeb / 2;
    ghost var vah, val, vbh, vbl := ah.Magnitude(), al.Magnitude(), bh.Magnitude(), bl.Magnitude();
    InnerFits(sizea, sizeb, ah, al, bh, bl);
    ghost var before := result.Digits[..n];
    var t3 := KMulOfSums(ah, al, bh, bl, same);
    LenFromBound(t3, n - shift);
    assert result.Digits[..n] == before;
    ghost var carries := AddMiddle(result.Digits, n, shift, t3.Digits, t3.Size);
    assert result.Mag() == result.Digits[..n];
    LiftAdd(borrows, carries, n);
    ExactProduct(vah, val, vbh, vbl, sizea, sizeb, shift, result.Mag(), borrows - carries);
    result.Normalize();
  }

  /** The halves are as short as the room argument says. */
  ghost predicate HalfBounded(sizea: nat, sizeb: nat, ah: BigInteger, al: BigInteger, bh: BigInteger, bl: BigInteger)
    requires ah.Valid() && al.Valid() && bh.Valid() && bl.Valid() && sizeb / 2 <= sizea
    reads ah, ah.Digits, al, al.Digits, bh, bh.Digits, bl, bl.Digits
  {
    && 0 <= ah.Magnitude() < P(sizea - sizeb / 2) && 0 <= al.Magnitude() < P(sizeb / 2)
    && 0 <= bh.Magnitude() < P(sizeb - sizeb / 2) && 0 <= bl.Magnitude() < P(sizeb / 2)
  }

  lemma HalfBounds(sizea: nat, sizeb: nat, ah: BigInteger, al: BigInteger, bh: BigInteger, bl: BigInteger)
    requires ah.Valid() && al.Valid() && bh.Valid() && bl.Valid() && sizeb / 2 <= sizea
    requires ah.Len() <= sizea - sizeb / 2 && al.Len() <= sizeb / 2
    requires bh.Len() <= sizeb - sizeb / 2 && bl.Len() <= sizeb / 2
    ensures HalfBounded(sizea, sizeb, ah, al, bh, bl)
  {
    hide V, Lift, P;
    MagnitudeBounds(ah);
    MagnitudeBounds(al);
    MagnitudeBounds(bh);
    MagnitudeBounds(bl);
    PMonotone(ah.Len(), sizea - sizeb / 2);
    PMonotone(al.Len(), sizeb / 2);
    PMonotone(bh.Len(), sizeb - sizeb / 2);
    PMonotone(bl.Len(), sizeb / 2);
  }

  lemma InnerFits(sizea: nat, sizeb: nat, ah: BigInteger, al: BigInteger, bh: BigInteger, bl: BigInteger)
    requires ah.Valid() && al.Valid() && bh.Valid() && bl.Valid()
    requires sizea <= sizeb < 2 * sizea && 2 < sizea
    requires HalfBounded(sizea, sizeb, ah, al, bh, bl)
    ensures (ah.Magnitude() + al.Magnitude()) * (bh.Magnitude() + bl.Magnitude()) < P(sizea + sizeb - sizeb / 2)
  {
    hide V, Lift, P;
    MiddleFits(ah.Magnitude(), al.Magnitude(), bh.Magnitude(), bl.Magnitude(), sizea, sizeb);
  }

  /** Steps 1 to 5: the two outer products placed, and both subtracted at `shift`. */
  method KaratsubaOuter(ah: BigInteger, al: BigInteger, bh: BigInteger, bl: BigInteger, n: nat, shift: nat)
      returns (result: BigInteger, ghost wraps: int)
    requires Multipliable(ah, bh) && Multipliable(al, bl)
    requires 0 < shift && al.Len() <= shift && bl.Len() <= shift && 0 < ah.Len()
    requires 2 * shift + ah.Len() + bh.Len() <= n && 2 * shift <= n - shift
    ensures fresh(result) && result.Valid() && fresh(result.Digits) && result.Size == n
    ensures V(result.Digits[..n])
         == al.Magnitude() * bl.Magnitude() + Lift(ah.Magnitude() * bh.Magnitude(), 2 * shift)
            - Lift(ah.Magnitude() * bh.Magnitude() + al.Magnitude() * bl.Magnitude(), shift) + Lift(wraps, n)
    decreases 2 * shift + ah.Len() + bh.Len(), 1
  {
    hide V, Lift, P, Trimmed;
    var t1 := KMul(ah, bh);
    var t2 := KMul(al, bl);
    result := new BigInteger.WithRoom(n);
    result.Size := n;
    PlaceProducts(result.Digits, n, shift, t1.Digits, t1.Size, t2.Digits, t2.Size);
    wraps := SubtractProducts(result.Digits, n, shift, t1.Digits, t1.Size, t2.Digits, t2.Size);
  }

  /** t3 <- (ah + al) * (bh + bl). */
  method KMulOfSums(ah: BigInteger, al: BigInteger, bh: BigInteger, bl: BigInteger, same: bool)
      returns (t3: BigInteger)
    requires ah.Valid() && al.Valid() && bh.Valid() && bl.Valid()
    requires same ==> bh == ah && bl == al
    ensures fresh(t3) && t3.Valid() && fresh(t3.Digits) && t3.Normalized() && t3.Compact() && t3.Size >= 0
    ensures t3.Magnitude() == (ah.Magnitude() + al.Magnitude()) * (bh.Magnitude() + bl.Magnitude())
    decreases Max(ah.Len(), al.Len()) + Max(bh.Len(), bl.Len()) + 2, 4
  {
    hide V, Lift;
    var t1 := XAdd(ah, al);
    var t2 := t1;
    if !same { t2 := XAdd(bh, bl); }
    t3 := KMul(t1, t2);
  }

  /** A normalized number below BASE^m has at most m digits. */
  lemma LenFromBound(x: BigInteger, m: nat)
    requires x.Valid() && x.Normalized() && x.Magnitude() < P(m)
    ensures x.Len() <= m
  {
    hide V, Lift, P;
    MagnitudeBounds(x);
    if x.Len() > m { PMonotone(m, x.Len() - 1); }
  }

  /** The digits left after step 6 stand for the product itself. */
  lemma ExactProduct(ah: int, al: int, bh: int, bl: int, sizea: nat, sizeb: nat, shift: nat, z: seq<Digit>, wraps: int)
    requires shift <= sizea && shift <= sizeb && |z| == sizea + sizeb
    requires 0 <= al + Lift(ah, shift) < P(sizea) && 0 <= bl + Lift(bh, shift) < P(sizeb)
    requires V(z) == al * bl + Lift(ah * bh, 2 * shift) - Lift(ah * bh + al * bl, shift)
                     + Lift((ah + al) * (bh + bl), shift) + Lift(wraps, |z|)
    ensures V(z) == (al + Lift(ah, shift)) * (bl + Lift(bh, shift))
  {
    hide V, Lift, P;
    KaratsubaIdentity(ah, al, bh, bl, shift);
    LiftAdd((ah + al) * (bh + bl), ah * bh + al * bl, shift);
    VBound(z);
    ProductBound(al + Lift(ah, shift), bl + Lift(bh, shift), sizea, sizeb);
    WrapsCancel(V(z), (al + Lift(ah, shift)) * (bl + Lift(bh, shift)), wraps, |z|);
  }

  lemma SliceOfPrefix(s: seq<Digit>, n: nat, done: nat, use: nat)
    requires done + use <= n <= |s|
    ensures s[..n][done..done + use] == s[done..done + use]
  {
  }

  lemma SliceTop(s: seq<Digit>, done: nat, use: nat)
    requires 0 < use && done + use <= |s|
    ensures s[done..done + use][use - 1] == s[done + use - 1]
  {
  }

  /** One turn of `k_lopsided_mul`: the next `use` digits of `b`, times `a`, are added in. */
  method LopsidedSlice(a: BigInteger, b: BigInteger, result: BigInteger, bslice: BigInteger, done: nat, use: nat)
    requires a.Valid() && b.Valid() && a.Normalized() && b.Normalized()
    requires result.Valid() && result.Size == a.Len() + b.Len() && bslice.Valid()
    requires {result, bslice} !! {a, b} && result != bslice
    requires {result.Digits, bslice.Digits} !! {a.Digits, b.Digits} && result.Digits != bslice.Digits
    requires use <= a.Len() <= bslice.Allocated && done + use <= b.Len()
    requires use == a.Len() || done + use == b.Len()
    requires 0 < use
    requires result.Magnitude() == a.Magnitude() * V(b.Mag()[..done])
    modifies result.Digits, bslice`Size, bslice.Digits
    ensures bslice.Valid()
    ensures result.Magnitude() == a.Magnitude() * V(b.Mag()[..done + use])
    decreases a.Len() + use, 4
  {
    hide V, Lift, P;
    var n := result.Size;
    ghost var whole, bs, before := b.Digits[..], b.Mag(), result.Digits[..n];
    SliceOfPrefix(whole, b.Len(), done, use);
    CopyDigits(bslice.Digits, 0, b.Digits, done, use);
    bslice.Size := use;
    assert b.Mag() == bs;
    assert bslice.Mag() == bslice.Digits[0..0 + use] == b.Digits[done..done + use];
    assert b.Digits[done..done + use] == whole[done..done + use];
    SliceTop(bs, done, use);
    var product := KMul(a, bslice);
    assert result.Digits[..n] == before;
    ghost var wraps := AddMiddle(result.Digits, n, done, product.Digits, product.Size);
    LopsidedStep(result.Digits[..n], a.Mag(), bs, done, use, wraps);
  }

  /**
  `k_lopsided_mul`: `b` is at least twice as long as `a`; its slices of `a`'s length
  are multiplied one at a time. Only the last slice is sure to be normalized.
   */
  method KLopsidedMul(a: BigInteger, b: BigInteger) returns (result: BigInteger)
    requires a.Valid() && b.Valid() && a.Normalized() && b.Normalized()
    requires KARATSUBA_CUTOFF < a.Len() && 2 * a.Len() <= b.Len()
    ensures fresh(result) && result.Valid() && fresh(result.Digits) && result.Normalized() && result.Compact()
    ensures 0 <= result.Size <= a.Len() + b.Len()
    ensures result.Magnitude() == a.Magnitude() * b.Magnitude()
    decreases a.Len() + b.Len(), 2
  {
    hide V, Lift, P, Trimmed;
    var sizea, sizeb := a.Len(), b.Len();
    result := new BigInteger.WithRoom(sizea + sizeb);
    result.Size := sizea + sizeb;
    var bslice: BigInteger := new BigInteger.WithRoom(sizea);
    var nbdone := 0;
    ghost var bs, z := b.Mag(), result.Digits;
    LopsidedStart(result.Mag(), a.Magnitude(), bs);
    while sizeb > 0
      invariant 0 <= sizeb && nbdone + sizeb == |bs|
      invariant result.Valid() && bslice.Valid() && sizea <= bslice.Allocated
      invariant result.Magnitude() == a.Magnitude() * V(bs[..nbdone])
      decreases sizeb
      modifies result.Digits, bslice`Size, bslice.Digits
    {
      var nbtouse := if sizeb < sizea then sizeb else sizea;
      LopsidedSlice(a, b, result, bslice, nbdone, nbtouse);
      sizeb := sizeb - nbtouse;
      nbdone := nbdone + nbtouse;
    }
    assert bs[..nbdone] == bs;
    result.Normalize();
  }

  lemma LopsidedStart(z: seq<Digit>, a: int, bs: seq<Digit>)
    requires forall k :: 0 <= k < |z| ==> z[k] == 0
    ensures V(z) == a * V(bs[..0])
  {
    VZero(z);
  }

  /** Adding the product with the next slice of `b` cannot carry out of the result. */
  lemma LopsidedStep(z: seq<Digit>, xs: seq<Digit>, bs: seq<Digit>, done: nat, use: nat, wraps: int)
    requires done + use <= |bs| && |z| == |xs| + |bs|
    requires V(z) == V(xs) * V(bs[..done]) + Lift(V(xs) * V(bs[done..done + use]), done) - Lift(wraps, |z|)
    ensures V(z) == V(xs) * V(bs[..done + use])
  {
    hide V, Lift, P;
    var whole := bs[..done + use];
    VSplit(whole, done);
    assert whole[..done] == bs[..done] && whole[done..] == bs[done..done + use];
    LiftMul(V(xs), V(bs[done..done + use]), done);
    Distribute(V(xs), V(bs[..done]), Lift(V(bs[done..done + use]), done));
    VBound(z);
    VBound(xs);
    VBound(whole);
    PMonotone(done + use, |bs|);
    ProductBound(V(xs), V(whole), |xs|, |bs|);
    LiftNeg(wraps, |z|);
    WrapsCancel(V(z), V(xs) * V(whole), -wraps, |z|);
  }
}
