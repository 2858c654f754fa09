/**
Division of digit vectors: by one digit, and by Knuth's Algorithm D
(`include/lstd/big_integer.h`, lines 798-940; The Art of Computer Programming,
volume 2, section 4.3.1).
 */
module BigDiv {
  import opened Powers
  import opened BigDigits
  import opened BigIntegers
  import opened BigAddSub
  import opened BigMul
  import opened BigShift
  import opened Bits

  /** `inplace_divrem1`: the quotient by one digit; `pin` and `pout` may be the same buffer. */
  method InplaceDivRem1(pout: array<Digit>, pin: array<Digit>, size: nat, n: Digit) returns (rem: Digit)
    requires size <= pin.Length && size <= pout.Length && n > 0
    modifies pout
    ensures V(pout[..size]) == old(V(pin[..size])) / n && rem == old(V(pin[..size])) % n
  {
    hide V, Lift;
    ghost var xs := pin[..size];
    rem := 0;
    var k := size;
    assert pout[size..size] == [] && xs[..size] == xs;
    DivRem1Start(n, size);
    while k > 0
      invariant 0 <= k <= size && rem < n
      invariant pin[..k] == xs[..k]
      invariant V(xs) == V(xs[..k]) + Lift(V(pout[k..size]) * n + rem, k)
    {
      ghost var upper := pout[k..size];
      k := k - 1;
      var two: int := rem as int * BASE + pin[k] as int;
      var hi: int := two / n;
      DivRem1Digit(rem, pin[k], n);
      DivRem1Step(xs, k, n, upper, rem);
      assert pin[..k + 1][..k] == xs[..k] && pin[k] == pin[..k + 1][k];
      pout[k] := hi;
      assert pout[k..size] == [hi] + upper;
      rem := two - hi * n;
    }
    assert xs[..0] == [] && pout[0..size] == pout[..size];
    DivRem1Done(xs, pout[..size], n, rem);
  }

  lemma DivRem1Start(n: int, size: nat)
    ensures Lift(V([]) * n + 0, size) == 0 && V([]) == 0
  {
    LiftZero(size);
  }

  /** The two-digit dividend fits: its quotient is a digit. */
  lemma DivRem1Digit(rem: int, d: Digit, n: int)
    requires 0 <= rem < n
    ensures var two := rem * BASE + d; 0 <= two / n < BASE && 0 <= two - (two / n) * n < n
  {
    var two := rem * BASE + d;
    DivModLaw(two, n);
    if two / n >= BASE {
      MulMono(BASE, two / n, n);
    } else if two / n < 0 {
      MulMono(two / n, -1, n);
    }
  }

  lemma DivRem1Step(xs: seq<Digit>, k: nat, n: int, upper: seq<Digit>, rem: int)
    requires k < |xs| && 0 <= rem < n
    ensures var two := rem * BASE + xs[k]; var hi := two / n;
      0 <= hi < BASE &&
      V(xs[..k + 1]) + Lift(V(upper) * n + rem, k + 1)
        == V(xs[..k]) + Lift(V([hi] + upper) * n + (two - hi * n), k)
  {
    hide V, Lift;
    var two := rem * BASE + xs[k];
    var hi := two / n;
    DivRem1Digit(rem, xs[k], n);
    VPrefix(xs, k);
    VHead([hi] + upper);
    assert ([hi] + upper)[1..] == upper;
    LiftBase(V(upper) * n + rem, k);
    LiftAdd(xs[k], BASE * (V(upper) * n + rem), k);
    Distribute(n, hi, BASE * V(upper));
    MulAssoc(BASE, V(upper), n);
  }

  lemma DivRem1Done(xs: seq<Digit>, q: seq<Digit>, n: int, rem: int)
    requires 0 <= rem < n && V(xs) == V([]) + Lift(V(q) * n + rem, 0)
    ensures V(q) == V(xs) / n && rem == V(xs) % n
  {
    LiftNone(V(q) * n + rem);
    DivModUnique(V(xs), n, V(q), rem);
  }

  /** `divrem1`: quotient and remainder by one digit; the sign of `a` is ignored. */
  method DivRem1(a: BigInteger, n: Digit) returns (quot: BigInteger, rem: Digit, asserted: bool)
    requires a.Valid() && n > 0
    ensures asserted <==> a.Size != 0
    ensures fresh(quot) && quot.Valid() && fresh(quot.Digits) && quot.Normalized() && quot.Compact() && quot.Size >= 0
    ensures quot.Magnitude() == a.Magnitude() / n && rem == a.Magnitude() % n
  {
    hide V, Lift;
    var size := a.Len();
    quot, asserted := MakeRoom(size);
    quot.Size := size;
    rem := InplaceDivRem1(quot.Digits, a.Digits, size, n);
    quot.Normalize();
  }

  /** A number of two digits; the higher "digit" may itself be such a number. */
  function Two(hi: int, lo: int): int {
    hi * BASE + lo
  }

  /**
  The estimate of Algorithm D. The loop that corrects it with the second divisor digit
  ends at the exact quotient of the top three dividend digits by the top two divisor
  digits.
   */
  method EstimateDigit(u0: Digit, u1: Digit, u2: Digit, v1: Digit, v2: Digit) returns (qhat: int)
    requires HALF_BASE <= v1 && u0 <= v1
    ensures 0 <= qhat <= 0x4000_0001
    ensures qhat * Two(v1, v2) <= Two(Two(u0, u1), u2) < (qhat + 1) * Two(v1, v2)
  {
    hide Two, Estimates;
    var vv := Two(u0, u1);
    qhat := vv / v1;
    var rhat: int := vv - qhat * v1;
    EstimateStart(u0, u1, u2, v1, v2, qhat, rhat);
    while v2 as int * qhat > Two(rhat, u2)
      invariant 0 <= qhat <= 0x4000_0001 && 0 <= rhat < BASE
      invariant Estimates(vv, u2, v1, v2, qhat, rhat)
      decreases BASE - rhat
    {
      EstimateTooLarge(vv, u2, v1, v2, qhat, rhat);
      qhat := qhat - 1;
      rhat := rhat + v1;
      if rhat >= BASE { break; }
    }
    EstimateFits(vv, u2, v1, v2, qhat, rhat);
  }

  /** `qhat` and `rhat` divide the top two digits, and `qhat` is not too small for the top three. */
  ghost predicate Estimates(vv: int, u2: Digit, v1: Digit, v2: Digit, qhat: int, rhat: int) {
    vv == qhat * v1 + rhat && Two(vv, u2) < (qhat + 1) * Two(v1, v2)
  }

  lemma EstimateStart(u0: Digit, u1: Digit, u2: Digit, v1: Digit, v2: Digit, qhat: int, rhat: int)
    requires HALF_BASE <= v1 && u0 <= v1
    requires qhat == Two(u0, u1) / v1 && rhat == Two(u0, u1) - qhat * v1
    ensures 0 <= qhat <= 0x4000_0001 && 0 <= rhat < BASE
    ensures Estimates(Two(u0, u1), u2, v1, v2, qhat, rhat)
  {
    DivModLaw(Two(u0, u1), v1);
    if qhat < 0 { MulMono(qhat, -1, v1); }
    if qhat > 0x4000_0001 { MulMono(0x4000_0002, qhat, v1); }
    MulMono(0, qhat + 1, v2);
    SplitProduct(qhat + 1, v1, v2);
    Distribute(v1, qhat, 1);
  }

  lemma SplitProduct(q: int, v1: int, v2: int)
    ensures q * Two(v1, v2) == (q * v1) * BASE + q * v2
  {
  }

  /** The test of the correcting loop says that the whole estimate is too large. */
  lemma EstimateTooLarge(vv: int, u2: Digit, v1: Digit, v2: Digit, qhat: int, rhat: int)
    requires 0 <= qhat && 0 <= rhat && Estimates(vv, u2, v1, v2, qhat, rhat)
    requires v2 * qhat > Two(rhat, u2)
    ensures qhat > 0 && Estimates(vv, u2, v1, v2, qhat - 1, rhat + v1)
  {
    SplitProduct(qhat, v1, v2);
    Distribute(v1, qhat - 1, 1);
  }

  /** When the loop stops, for either reason, the estimate is not too large any more. */
  lemma EstimateFits(vv: int, u2: Digit, v1: Digit, v2: Digit, qhat: int, rhat: int)
    requires 0 <= qhat <= 0x4000_0001 && Estimates(vv, u2, v1, v2, qhat, rhat)
    requires rhat >= BASE || v2 * qhat <= Two(rhat, u2)
    ensures qhat * Two(v1, v2) <= Two(vv, u2) < (qhat + 1) * Two(v1, v2)
  {
    SplitProduct(qhat, v1, v2);
    MulMono(qhat, 0x4000_0001, v2);
    MulMono(v2, MASK, 0x4000_0001);
  }

  /** The top two or three digits of a vector bracket the number. */
  lemma TopDigits(s: seq<Digit>, top: int, k: nat)
    requires k <= |s| && top == V(s[k..])
    ensures Lift(top, k) <= V(s) < Lift(top + 1, k)
  {
    hide V, Lift;
    VSplit(s, k);
    VBound(s[..k]);
    LiftAdd(top, 1, k);
  }

  lemma VThree(s: seq<Digit>)
    ensures |s| == 2 ==> V(s) == Two(s[1], s[0])
    ensures |s| == 3 ==> V(s) == Two(Two(s[2], s[1]), s[0])
  {
    hide V, Lift;
    if |s| == 2 || |s| == 3 {
      VHead(s);
      VHead(s[1..]);
      if |s| == 3 { VHead(s[1..][1..]); }
      VZero([]);
      assert s[1..][1..][|s| - 2..] == [];
      assert |s| == 3 ==> s[1..][1..][1..] == [];
      assert |s| == 2 ==> s[1..][1..] == [];
    }
  }

  /**
  Theorem B of Algorithm D: the corrected estimate is the true quotient digit or one
  more. `u` is the window of the dividend, `v` the normalized divisor.
   */
  lemma EstimateIsClose(u: seq<Digit>, v: seq<Digit>, qhat: int)
    requires |u| == |v| + 1 && |v| >= 2 && v[|v| - 1] >= HALF_BASE
    requires 0 <= qhat <= 0x4000_0001
    requires var m := |v|;
      var t, d := Two(Two(u[m], u[m - 1]), u[m - 2]), Two(v[m - 1], v[m - 2]);
      qhat * d <= t < (qhat + 1) * d
    ensures -V(v) <= V(u) - qhat * V(v) < V(v)
  {
    hide V, Lift, P;
    var m, k := |v|, |v| - 2;
    var t, d := Two(Two(u[m], u[m - 1]), u[m - 2]), Two(v[m - 1], v[m - 2]);
    VThree(u[k..]);
    VThree(v[k..]);
    TopDigits(u, t, k);
    TopDigits(v, d, k);
    VBound(u);
    VBound(v);
    NotTooSmall(V(u), V(v), t, d, qhat, k);
    AtMostOneTooLarge(V(u), V(v), t, d, qhat, k);
  }

  /** The quotient of the top digits is not below that of the numbers. */
  lemma NotTooSmall(u: int, v: int, t: int, d: int, qhat: int, k: nat)
    requires u < Lift(t + 1, k) && Lift(d, k) <= v && 0 <= qhat && t < (qhat + 1) * d
    ensures u - qhat * v < v
  {
    hide Lift;
    LiftMono(t + 1, (qhat + 1) * d, k);
    LiftMul(qhat + 1, d, k);
    MulMono(Lift(d, k), v, qhat + 1);
    Distribute(v, qhat, 1);
  }

  /** It is at most one above, because the top digit of the divisor is large. */
  lemma AtMostOneTooLarge(u: int, v: int, t: int, d: int, qhat: int, k: nat)
    requires Lift(t, k) <= u && 0 <= v < Lift(d + 1, k) && 0 <= u
    requires 0 <= qhat <= d + 1 && qhat * d <= t
    ensures -v <= u - qhat * v
  {
    hide Lift;
    if qhat >= 1 {
      OneLess(qhat, d);
      LiftMono((qhat - 1) * (d + 1), t, k);
      LiftMul(qhat - 1, d + 1, k);
      MulMono(v, Lift(d + 1, k), qhat - 1);
      Distribute(v, qhat - 1, 1);
    }
  }

  lemma OneLess(qhat: int, d: int)
    requires 1 <= qhat <= d + 1
    ensures (qhat - 1) * (d + 1) <= qhat * d
  {
    Distribute(d, qhat - 1, 1);
    Distribute(qhat - 1, d, 1);
  }

  /**
  The multiply-and-subtract loop: `zhi` is what is left to take from the digit above. The
  window may be the divisor itself, because each digit is read before it is written.
   */
  method MultiplySubtract(x: array<Digit>, j: nat, y: array<Digit>, m: nat, qhat: int) returns (zhi: int)
    requires (x != y || j == 0) && j + m <= x.Length && m <= y.Length && 0 <= qhat <= BASE
    modifies x
    ensures -qhat <= zhi <= 0
    ensures AddedTo(old(x[..]), x[..], j, m, -(qhat * old(V(y[..m]))) - Lift(zhi, m))
  {
    hide AddedTo, V, Lift;
    ghost var s, ys := x[..], y[..m];
    zhi := 0;
    AddedNone(s, j);
    var it := 0;
    while it < m
      invariant 0 <= it <= m && -qhat <= zhi <= 0
      invariant forall k :: it <= k < m ==> y[k] == ys[k]
      invariant AddedTo(s, x[..], j, it, -(qhat * V(ys[..it])) - Lift(zhi, it))
    {
      ghost var soFar := -(qhat * V(ys[..it])) - Lift(zhi, it);
      AddedNext(s, x[..], j, it, soFar);
      var product: int := qhat * y[it] as int;
      var z: int := x[j + it] as int + zhi - product;
      ZBounds(qhat, y[it], product, x[j + it], zhi);
      AddedStep(s, x[..], j, it, soFar, zhi - product, z % BASE, z / BASE);
      MulSubStep(ys, it, qhat, zhi, product);
      x[j + it] := z % BASE;
      zhi := z / BASE;
      it := it + 1;
    }
    assert ys[..m] == ys;
  }

  /** -BASE * qhat <= z < BASE, so the borrow stays within [-qhat, 0]. */
  lemma ZBounds(qhat: int, y: Digit, product: int, x: Digit, zhi: int)
    requires 0 <= qhat && -qhat <= zhi <= 0 && product == qhat * y
    ensures var z := x + zhi - product; -BASE * qhat <= z < BASE
    ensures var z := x + zhi - product; -qhat <= z / BASE <= 0
  {
    MulMono(y, MASK, qhat);
    MulMono(0, y, qhat);
  }

  lemma MulSubStep(ys: seq<Digit>, it: nat, qhat: int, zhi: int, product: int)
    requires it < |ys| && product == qhat * ys[it]
    ensures -(qhat * V(ys[..it])) - Lift(zhi, it) + Lift(zhi - product, it) == -(qhat * V(ys[..it + 1]))
  {
    hide V, Lift;
    VPrefix(ys, it);
    LiftAdd(zhi, product, it);
    LiftMul(qhat, ys[it], it);
    Distribute(qhat, V(ys[..it]), Lift(ys[it], it));
  }

  /**
  After the subtraction the digit above is 0 or -1, and it is -1 exactly when the
  estimate was one too large.
   */
  lemma SubtractedSign(u: seq<Digit>, w: seq<Digit>, v: seq<Digit>, product: int, zhi: int)
    requires |u| == |w| + 1 && |w| == |v|
    requires V(w) == V(u[..|v|]) - product - Lift(zhi, |v|)
    requires -V(v) <= V(u) - product < V(v)
    ensures u[|v|] as int + zhi == 0 || u[|v|] as int + zhi == -1
    ensures u[|v|] as int + zhi == 0 ==> V(u) == product + V(w) && V(w) < V(v)
    ensures u[|v|] as int + zhi == -1 ==> V(u) == product + V(w) - P(|v|) && V(u) < product
  {
    hide V, Lift, P;
    var m, top: int := |v|, u[|v|];
    VPrefix(u, m);
    assert u[..m + 1] == u;
    VBound(w);
    VBound(v);
    SignOfTop(V(u), V(u[..m]), V(w), V(v), product, top, zhi, m);
  }

  lemma SignOfTop(u: int, low: int, w: int, v: int, product: int, top: int, zhi: int, m: nat)
    requires u == low + Lift(top, m) && w == low - product - Lift(zhi, m)
    requires 0 <= w < P(m) && v < P(m) && -v <= u - product < v
    ensures top + zhi == 0 || top + zhi == -1
    ensures top + zhi == 0 ==> u == product + w && w < v
    ensures top + zhi == -1 ==> u == product + w - P(m) && u < product
  {
    hide Lift, P;
    LiftAdd(top, zhi, m);
    TopIsSmall(u - product, w, v, top + zhi, m);
  }

  /** A difference within (-P, P), written as m digits and something above them. */
  lemma TopIsSmall(r: int, w: int, v: int, top: int, m: nat)
    requires 0 <= w < P(m) && v < P(m) && -v <= r < v && r == w + Lift(top, m)
    ensures top == 0 || top == -1
    ensures top == 0 ==> r == w && w < v
    ensures top == -1 ==> r == w - P(m) && r < 0
  {
    hide Lift, P;
    PAsLift(m);
    LiftZero(m);
    LiftNeg(1, m);
    if top >= 1 { LiftMono(1, top, m); }
    if top <= -2 {
      LiftMono(top, -2, m);
      LiftAdd(-1, 1, m);
      LiftAdd(-1, -1, m);
    }
  }

  /** Adding the divisor back carries out of the window, which cancels the borrow. */
  lemma AddBackExact(w: seq<Digit>, w': seq<Digit>, v: seq<Digit>, difference: int, carry: int)
    requires |w| == |w'| == |v| && 0 <= carry <= 1
    requires V(w') == V(w) + V(v) - Lift(carry, |v|)
    requires difference == V(w) - P(|v|) && -V(v) <= difference < 0
    ensures difference == V(w') - V(v) && V(w') < V(v)
  {
    hide V, Lift;
    VBound(w');
    VBound(v);
    VBound(w);
    LiftZero(|v|);
  }

  /** A window whose upper part is below the divisor: its top digit and its quotient are small. */
  lemma WindowTop(u: seq<Digit>, v: seq<Digit>)
    requires |u| == |v| + 1 && |v| > 0 && V(u[1..]) < V(v)
    ensures u[|v|] <= v[|v| - 1]
    ensures 0 <= V(u) < BASE * V(v)
  {
    hide V, Lift;
    var m := |v|;
    VHead(u);
    VBound(u);
    if u[m] > v[m - 1] {
      VPush(u[1..][..m - 1], u[m]);
      assert u[1..][..m - 1] + [u[m]] == u[1..];
      VBound(u[1..][..m - 1]);
      VPush(v[..m - 1], v[m - 1]);
      assert v[..m - 1] + [v[m - 1]] == v;
      VBound(v[..m - 1]);
      LiftMono(v[m - 1] as int + 1, u[m], m - 1);
      LiftAdd(v[m - 1], 1, m - 1);
    }
  }

  /** A quotient digit: bounded by the bound on the window. */
  lemma QuotientBelowBase(u: int, v: int, q: int)
    requires 0 <= u < BASE * v
    ensures q * v <= u ==> q < BASE
    ensures u < (q + 1) * v ==> q >= 0
  {
    if q >= BASE { MulMono(BASE, q, v); }
    if q < 0 { MulMono(q + 1, 0, v); }
  }

  /** The corrected estimate for a window is one too large. */
  ghost predicate TooLarge(u: seq<Digit>, v: seq<Digit>)
    requires |u| == |v| + 1 && |v| >= 2 && v[|v| - 1] > 0
  {
    var m := |v|;
    (Two(Two(u[m], u[m - 1]), u[m - 2]) / Two(v[m - 1], v[m - 2])) * V(v) > V(u)
  }

  lemma EstimateDecides(u: seq<Digit>, v: seq<Digit>, qhat: int)
    requires |u| == |v| + 1 && |v| >= 2 && v[|v| - 1] > 0
    requires var m := |v|;
      var t, d := Two(Two(u[m], u[m - 1]), u[m - 2]), Two(v[m - 1], v[m - 2]);
      qhat * d <= t < (qhat + 1) * d
    ensures TooLarge(u, v) <==> qhat * V(v) > V(u)
  {
    hide V;
    var m := |v|;
    var t, d := Two(Two(u[m], u[m - 1]), u[m - 2]), Two(v[m - 1], v[m - 2]);
    Distribute(d, qhat, 1);
    DivModUnique(t, d, qhat, t - qhat * d);
  }

  /**
  When a turn leaves the right remainder although the window is the divisor: the estimate is not
  too large, or the remainder is the one number for which the doubling comes out right.
   */
  ghost predicate StaysRight(u: seq<Digit>, v: seq<Digit>)
    requires |u| == |v| + 1 && |v| >= 2 && v[|v| - 1] > 0
  {
    TooLarge(u, v) ==> V(v) > 0 && V(u) % V(v) == 2 * V(v) - P(|v|)
  }

  /** A divisor with the high bit of its top digit set is at least half of all numbers of its length. */
  lemma AtLeastHalf(v: seq<Digit>)
    requires |v| > 0 && v[|v| - 1] >= HALF_BASE
    ensures 0 < P(|v|) <= 2 * V(v) && V(v) < P(|v|)
  {
    hide V, Lift, P;
    var k := |v| - 1;
    VTopDigit(v);
    LiftMono(HALF_BASE, v[k], k);
    LiftAdd(HALF_BASE, HALF_BASE, k);
    LiftBase(1, k);
    PAsLift(k + 1);
    VBound(v);
  }

  /** What a turn leaves of a window that is the divisor, against the remainder. */
  lemma SharedRemainder(u: seq<Digit>, v: seq<Digit>, q: int, now: int)
    requires |u| == |v| + 1 && |v| >= 2 && v[|v| - 1] >= HALF_BASE
    requires Turned(true, u, v, q, now)
    ensures V(u) == q * V(v) + now <==> StaysRight(u, v)
  {
    hide V, P, TooLarge;
    AtLeastHalf(v);
    DivModUnique(V(u), V(v), q, V(u) - q * V(v));
    Distribute(V(v), q, 1);
  }

  /** A number divided by itself: the estimate is 1, and so is not too large. */
  lemma DividedByItself(u: seq<Digit>, v: seq<Digit>)
    requires |v| >= 2 && u == v + [0] && v[|v| - 1] > 0
    ensures !TooLarge(u, v)
  {
    hide V;
    var m, d := |v|, Two(v[|v| - 1], v[|v| - 2]);
    DivModUnique(d, d, 1, 0);
    assert Two(Two(u[m], u[m - 1]), u[m - 2]) == d;
    VPush(v, 0);
    LiftZero(m);
  }

  /** Adding a digit vector to itself where the divisor should have been added back. */
  ghost predicate DoubledInstead(now: int, difference: int, p: int) {
    var w := p + difference;
    now == if 2 * w >= p then 2 * w - p else 2 * w
  }

  /**
  A turn on the window `u`: the digit is exact, and `now` is the remainder, unless the divisor
  was overwritten when it should have been added back.
   */
  ghost predicate Turned(itself: bool, u: seq<Digit>, v: seq<Digit>, qdigit: int, now: int)
    requires |u| == |v| + 1 && |v| >= 2 && v[|v| - 1] > 0
  {
    && 0 <= V(u) - qdigit * V(v) < V(v)
    && if itself && TooLarge(u, v) then DoubledInstead(now, V(u) - (qdigit + 1) * V(v), P(|v|))
       else V(u) == qdigit * V(v) + now
  }

  lemma Doubled(w: seq<Digit>, now: seq<Digit>, difference: int, carry: int)
    requires |w| == |now| && 0 <= carry <= 1 && difference == V(w) - P(|w|)
    requires V(now) == V(w) + V(w) - Lift(carry, |w|)
    ensures DoubledInstead(V(now), difference, P(|w|))
  {
    hide V, Lift;
    VBound(now);
    LiftZero(|w|);
    PAsLift(|w|);
  }

  /**
  One turn of Algorithm D. The window x[j..j + m + 1] is divided by the divisor: the
  remainder replaces its lower m digits, the quotient digit is returned. The digit
  above the remainder keeps its old content. When the window is the divisor itself, the
  remainder is right unless the estimate is one too large: then the divisor is gone when it
  should be added back.
   */
  method DivideStep(x: array<Digit>, j: nat, y: array<Digit>, m: nat) returns (qdigit: Digit)
    requires m >= 2 && j + m < x.Length && m <= y.Length
    requires x != y || j == 0
    requires y[m - 1] >= HALF_BASE
    requires V(x[j + 1..j + m + 1]) < V(y[..m])
    modifies x
    ensures Turned(x == y, old(x[j..j + m + 1]), old(y[..m]), qdigit, V(x[j..j + m]))
    ensures x[..j] == old(x[..j]) && x[j + m..] == old(x[j + m..])
  {
    hide AddedTo, V, Lift, P, TooLarge, DoubledInstead;
    ghost var s, u, v := x[..], x[j..j + m + 1], y[..m];
    var atop := x[j + m];
    WindowTop(u, v);
    assert u[1..] == x[j + 1..j + m + 1];
    assert atop <= y[m - 1];
    var qhat := EstimateDigit(atop, x[j + m - 1], x[j + m - 2], y[m - 1], y[m - 2]);
    EstimateIsClose(u, v, qhat);
    EstimateDecides(u, v, qhat);
    Distribute(V(v), qhat - 1, 1);
    QuotientBelowBase(V(u), V(v), qhat - 1);
    assert qhat <= BASE;
    ghost var product := qhat * V(v);
    var zhi := MultiplySubtract(x, j, y, m, qhat);
    AddedWindow(s, x[..], j, m, -product - Lift(zhi, m));
    assert u[..m] == s[j..j + m] && x[..][j..j + m] == x[j..j + m];
    ghost var w := x[j..j + m];
    SubtractedSign(u, w, v, product, zhi);
    VBound(w);
    assert atop as int + zhi == 0 || atop as int + zhi == -1;
    if atop as int + zhi < 0 {
      ghost var t := x[..];
      var carry := VIAdd(x, j, m, y, m);
      AddedBack(t, x[..], j, m, w, x == y, v, V(u) - product, carry);
      qhat := qhat - 1;
    }
    Distribute(V(v), qhat, 1);
    QuotientBelowBase(V(u), V(v), qhat);
    qdigit := qhat;
    assert x[..][j..j + m] == x[j..j + m];
  }

  /** After adding back: the remainder, unless the divisor was the window. */
  lemma AddedBack(t: seq<Digit>, x: seq<Digit>, j: nat, m: nat, w: seq<Digit>, itself: bool, v: seq<Digit>,
                  difference: int, carry: int)
    requires j + m <= |t| && w == t[j..j + m] && |v| == m && 0 <= carry <= 1
    requires AddedTo(t, x, j, m, (if itself then V(w) else V(v)) - Lift(carry, m))
    requires difference == V(w) - P(m) && -V(v) <= difference < 0
    ensures |x| == |t| && x[..j] == t[..j] && x[j + m..] == t[j + m..]
    ensures if itself then DoubledInstead(V(x[j..j + m]), difference, P(m))
            else difference == V(x[j..j + m]) - V(v) && V(x[j..j + m]) < V(v)
  {
    hide AddedTo, V, Lift, P, DoubledInstead;
    AddedWindow(t, x, j, m, (if itself then V(w) else V(v)) - Lift(carry, m));
    if itself {
      Doubled(w, x[j..j + m], difference, carry);
    } else {
      AddBackExact(w, x[j..j + m], v, difference, carry);
    }
  }

  lemma AddedWindow(s: seq<Digit>, x: seq<Digit>, xo: nat, i: nat, sum: int)
    requires AddedTo(s, x, xo, i, sum)
    ensures xo + i <= |s| == |x| && V(x[xo..xo + i]) == V(s[xo..xo + i]) + sum
    ensures x[..xo] == s[..xo] && x[xo + i..] == s[xo + i..]
  {
  }

  /** `q` is the quotient of `u` by `v`, and `rest` the remainder exactly if all went right. */
  ghost predicate DivisionOf(u: int, v: int, q: int, rest: int, right: bool) {
    (u == q * v + rest <==> right) && 0 <= u - q * v < v
  }

  /**
  The main loop of Algorithm D: x[..size] is divided by the m-digit divisor. The
  quotient goes to `q`, the remainder stays in x[..m].
   */
  method DivideLoop(x: array<Digit>, size: nat, y: array<Digit>, m: nat, q: array<Digit>)
    requires q != x && q != y
    requires 2 <= m <= size <= x.Length && m <= y.Length && size - m <= q.Length
    requires x != y || size == m + 1
    requires y[m - 1] >= HALF_BASE && x[size - 1] < y[m - 1]
    modifies x, q
    ensures DivisionOf(old(V(x[..size])), old(V(y[..m])), V(q[..size - m]), V(x[..m]),
                       x != y || old(StaysRight(x[..size], y[..m])))
    ensures size == m ==> x[..] == old(x[..])
  {
    hide V, Lift, StaysRight, Turned, Remains, DivisionOf;
    var k := size - m;
    ghost var total, v := V(x[..size]), y[..m];
    ghost var right := x != y || StaysRight(x[..size], v);
    var j := k;
    TopDigitBelow(x[k..size], v);
    assert q[k..k] == [];
    RemainsAtStart(x[..], k, m, v);
    while j > 0
      invariant 0 <= j <= k
      invariant x != y || j == k ==> y[..m] == v && y[m - 1] >= HALF_BASE
      invariant Remains(right || j == k, total, x[..], j, m, q[j..k], v)
      invariant !right && j < k ==> j == 0
      invariant j == k ==> x[..] == old(x[..])
    {
      RemainderFits(total, x[..], j, m, q[j..k], v);
      j := j - 1;
      ghost var s, upper := x[..], q[j + 1..k];
      assert s[j + 1..j + 1 + m] == x[j + 1..j + m + 1] && s[j..j + m + 1] == x[j..j + m + 1];
      assert x == y ==> s[j..j + m + 1] == s[..size];
      var qdigit := DivideStep(x, j, y, m);
      assert x[..][j..j + m] == x[j..j + m];
      q[j] := qdigit;
      assert q[j..k] == [qdigit] + upper;
      RemainsStep(x == y, right, total, s, x[..], j, m, v, qdigit, upper);
    }
    assert q[0..k] == q[..k] && x[..][..m] == x[..m];
    RemainsAtEnd(right, total, x[..], m, q[..k], v);
  }

  /**
  What the loop keeps while it goes right: the dividend is what is left of it and the quotient
  digits found so far. A turn that does not go right is the last one, and finds the right digit.
   */
  ghost predicate Remains(right: bool, total: int, x: seq<Digit>, j: nat, m: nat, q: seq<Digit>, v: seq<Digit>)
    requires j + m <= |x|
  {
    if right then V(x[j..j + m]) < V(v) && total == V(x[..j + m]) + Lift(V(q) * V(v), j)
    else j == 0 && total != V(q) * V(v) + V(x[..m]) && 0 <= total - V(q) * V(v) < V(v)
  }

  lemma RemainsAtStart(x: seq<Digit>, k: nat, m: nat, v: seq<Digit>)
    requires k + m <= |x| && V(x[k..k + m]) < V(v)
    ensures Remains(true, V(x[..k + m]), x, k, m, [], v)
  {
    DivideStart(v, k);
  }

  lemma RemainderFits(total: int, x: seq<Digit>, j: nat, m: nat, q: seq<Digit>, v: seq<Digit>)
    requires j + m <= |x| && Remains(true, total, x, j, m, q, v)
    ensures V(x[j..j + m]) < V(v)
  {
  }

  lemma RemainsStep(itself: bool, right: bool, total: int, s: seq<Digit>, x: seq<Digit>, j: nat, m: nat,
                    v: seq<Digit>, qdigit: Digit, upper: seq<Digit>)
    requires |s| == |x| && j + m < |s| && x[..j] == s[..j] && |v| == m >= 2 && v[m - 1] >= HALF_BASE
    requires Remains(true, total, s, j + 1, m, upper, v)
    requires Turned(itself, s[j..j + m + 1], v, qdigit, V(x[j..j + m]))
    requires right <==> !itself || StaysRight(s[j..j + m + 1], v)
    requires itself ==> j == 0 && upper == []
    ensures Remains(right, total, x, j, m, [qdigit] + upper, v)
  {
    hide V, Lift, P, TooLarge, StaysRight, DoubledInstead;
    if itself { SharedRemainder(s[j..j + m + 1], v, qdigit, V(x[j..j + m])); }
    var w, q := V(v), [qdigit] + upper;
    assert s[..j + 1 + m] == s[..j + m + 1];
    if right {
      DivideGlue(s, x, j, m, v, qdigit, upper);
      RemainderBelow(V(s[j..j + m + 1]), qdigit * w, V(x[j..j + m]), w);
    } else {
      DivideStart(v, 1);
      OneDigitValue(q);
      SameFactor(V(q), qdigit, w);
      assert s[0..m + 1] == s[..m + 1] && x[0..m] == x[..m];
    }
  }

  lemma RemainderBelow(u: int, product: int, rest: int, v: int)
    requires u == product + rest && u - product < v
    ensures rest < v
  {
  }

  lemma OneDigitValue(q: seq<Digit>)
    requires |q| == 1
    ensures V(q) == q[0]
  {
    VHead(q);
    assert q[1..] == [];
  }

  lemma RemainsAtEnd(right: bool, total: int, x: seq<Digit>, m: nat, q: seq<Digit>, v: seq<Digit>)
    requires m <= |x| && Remains(right, total, x, 0, m, q, v)
    ensures DivisionOf(total, V(v), V(q), V(x[..m]), right)
  {
    hide V, Lift;
    LiftNone(V(q) * V(v));
    assert x[0..m] == x[..m];
    VBound(x[..m]);
  }

  lemma DivideStart(v: seq<Digit>, k: nat)
    ensures Lift(V([]) * V(v), k) == 0
  {
    LiftZero(k);
  }

  /** With a smaller top digit the whole window is smaller. */
  lemma TopDigitBelow(w: seq<Digit>, v: seq<Digit>)
    requires |w| == |v| > 0 && w[|w| - 1] < v[|v| - 1]
    ensures V(w) < V(v)
  {
    var n := |w| - 1;
    VBound(w[..n]);
    VBound(v[..n]);
    LiftMono(w[n] as int + 1, v[n], n);
    LiftAdd(w[n], 1, n);
  }

  /** One more quotient digit accounts for what the window lost. */
  lemma DivideGlue(s: seq<Digit>, x: seq<Digit>, j: nat, m: nat, v: seq<Digit>, qdigit: Digit, upper: seq<Digit>)
    requires |s| == |x| && j + m < |s| && x[..j] == s[..j]
    requires V(s[j..j + m + 1]) == qdigit * V(v) + V(x[j..j + m])
    ensures V(s[..j + m + 1]) + Lift(V(upper) * V(v), j + 1)
      == V(x[..j + m]) + Lift(V([qdigit] + upper) * V(v), j)
  {
    hide V, Lift;
    var q := [qdigit] + upper;
    VSplit(s[..j + m + 1], j);
    VSplit(x[..j + m], j);
    assert s[..j + m + 1][..j] == s[..j] && s[..j + m + 1][j..] == s[j..j + m + 1];
    assert x[..j + m][..j] == x[..j] && x[..j + m][j..] == x[j..j + m];
    VHead(q);
    assert q[1..] == upper;
    LiftAdd(qdigit * V(v), V(x[j..j + m]), j);
    LiftBase(V(upper) * V(v), j);
    MulAssoc(BASE, V(upper), V(v));
    Distribute(V(v), qdigit, BASE * V(upper));
    LiftAdd(qdigit * V(v), BASE * (V(upper) * V(v)), j);
  }

  /** The shift that normalizes a divisor. */
  function NormalizingShift(top: Digit): (s: nat)
    requires top > 0
    ensures s < SHIFT && HALF_BASE <= top * Pow(2, s) && (top + 1) * Pow(2, s) <= BASE
    ensures s == 0 <==> top >= HALF_BASE
  {
    MsbBounds(top);
    SHIFT - (Msb(top) + 1)
  }

  lemma MsbBounds(top: Digit)
    requires top > 0
    ensures Msb(top) < SHIFT
    ensures HALF_BASE <= top * Pow(2, 29 - Msb(top)) && (top + 1) * Pow(2, 29 - Msb(top)) <= BASE
    ensures Msb(top) == 29 <==> top >= HALF_BASE
  {
    var r := Msb(top);
    Pow2Digit();
    assert Pow(2, 29) == HALF_BASE by { PowAdd(2, 1, 29); Pow2Small(); }
    if r >= SHIFT {
      PowMonotone(2, SHIFT, r);
      assert false;
    }
    PowAdd(2, r, 29 - r);
    PowAdd(2, r + 1, 29 - r);
    MulMono(Pow(2, r), top, Pow(2, 29 - r));
    MulMono(top as int + 1, Pow(2, r + 1), Pow(2, 29 - r));
    if r < 29 { PowMonotone(2, r + 1, 29); }
  }

  /** A number times a factor that its top digit allows. */
  lemma ShiftedBetween(bs: seq<Digit>, p: int)
    requires |bs| > 0 && p > 0
    requires HALF_BASE <= p * bs[|bs| - 1] && p * (bs[|bs| - 1] as int + 1) <= BASE
    ensures Lift(HALF_BASE, |bs| - 1) <= V(bs) * p < Lift(BASE, |bs| - 1)
  {
    hide V, Lift;
    var k := |bs| - 1;
    var top: int := bs[k];
    VTopDigit(bs);
    MulMono(Lift(top, k), V(bs), p);
    LiftMul(p, top, k);
    LiftMul(p, top + 1, k);
    LiftMono(HALF_BASE, p * top, k);
    LiftMono(p * (top + 1), BASE, k);
    StrictlyLess(V(bs), Lift(top + 1, k), p);
  }

  /** Shifting the divisor keeps its length and sets the high bit of its top digit. */
  lemma DivisorNormalized(bs: seq<Digit>, ns: seq<Digit>)
    requires |bs| > 0 && bs[|bs| - 1] != 0 && Trimmed(ns)
    requires V(ns) == V(bs) * Pow(2, NormalizingShift(bs[|bs| - 1]))
    ensures |ns| == |bs| && ns[|ns| - 1] >= HALF_BASE
  {
    hide V, Lift, Pow, P, NormalizingShift, Trimmed;
    var k := |bs| - 1;
    ShiftedBetween(bs, Pow(2, NormalizingShift(bs[k])));
    LiftBase(1, k);
    PAsLift(k);
    PAsLift(k + 1);
    LiftMono(1, HALF_BASE, k);
    LenOfTrimmed(ns, k + 1);
    VTopDigit(ns);
    if ns[k] < HALF_BASE { LiftMono(ns[k] as int + 1, HALF_BASE, k); }
  }

  lemma PAsLift(n: nat)
    ensures P(n) == Lift(1, n)
  {
  }

  /** The top digit brackets the number. */
  lemma VTopDigit(s: seq<Digit>)
    requires |s| > 0
    ensures Lift(s[|s| - 1], |s| - 1) <= V(s) < Lift(s[|s| - 1] as int + 1, |s| - 1)
  {
    var k := |s| - 1;
    VBound(s[..k]);
    LiftAdd(s[k], 1, k);
  }

  /** A trimmed vector in [BASE^(n-1), BASE^n) has n digits. */
  lemma LenOfTrimmed(s: seq<Digit>, n: nat)
    requires n > 0 && Trimmed(s) && P(n - 1) <= V(s) < P(n)
    ensures |s| == n
  {
    hide V, Lift, P;
    VBound(s);
    if |s| < n { PMonotone(|s|, n - 1); }
    if |s| > n {
      VPositive(s, |s| - 1);
      PMonotone(n, |s| - 1);
    }
  }

  /** A trimmed vector that stands for a larger number is not shorter. */
  lemma LargerIsLonger(s: seq<Digit>, t: seq<Digit>)
    requires Trimmed(s) && V(s) <= V(t)
    ensures |s| <= |t|
  {
    hide V, Lift, P;
    if |s| > |t| {
      VBound(t);
      VPositive(s, |s| - 1);
      PMonotone(|t|, |s| - 1);
    }
  }

  /**
  A shift by zero hands back the operand's own block, so the division then works in the
  dividend's digits, unless `realloc` moves them to make room for one more.
   */
  ghost predicate Borrows(a: BigInteger, b: BigInteger)
    requires b.Valid() && b.Len() > 0
    reads a, b, b.Digits
  {
    a.Heap && b.Digits[b.Len() - 1] >= HALF_BASE
  }

  /** The block has to grow: it is full, and the top digit is not below the divisor's. */
  ghost predicate Grows(a: BigInteger, b: BigInteger)
    requires a.Valid() && b.Valid() && 0 < b.Len() <= a.Len()
    reads a, a.Digits, b, b.Digits
  {
    a.Allocated == a.Len() && a.Digits[a.Len() - 1] >= b.Digits[b.Len() - 1]
  }

  /**
  Operands that share the block the division works in have the same digits, as in `x / x`.
  `LongerSharedDividend` shows why the operators must not be given a longer dividend.
   */
  ghost predicate MayDivide(a: BigInteger, b: BigInteger)
    requires a.Valid() && b.Valid()
    reads a, b, b.Digits
  {
    a.Digits == b.Digits && b.Len() >= 2 && Borrows(a, b) ==> a.Len() <= b.Len()
  }

  /** A longer dividend for which the loop turns only once. */
  ghost predicate OneTurn(a: BigInteger, b: BigInteger)
    requires a.Valid() && b.Valid() && b.Len() > 0
    reads a, a.Digits, b, b.Digits
  {
    a.Len() == b.Len() + 1 && a.Digits[b.Len()] < b.Digits[b.Len() - 1]
  }

  /** The division comes out right: always, unless it overwrites the divisor in its only turn. */
  ghost predicate ComesOut(a: BigInteger, b: BigInteger)
    requires a.Valid() && b.Valid() && 2 <= b.Len() <= a.Len() && b.Normalized()
    reads a, a.Digits, b, b.Digits
  {
    a.Digits == b.Digits && Borrows(a, b) && a.Len() == b.Len() + 1 ==> StaysRight(a.Mag(), b.Mag())
  }

  /** The top digit after a shift by `s`, with the bits moved up from the digit below. */
  function ShiftedTop(d: seq<Digit>, s: nat): int
    requires |d| >= 2 && s < SHIFT
  {
    d[|d| - 1] * Pow(2, s) + d[|d| - 2] / Pow(2, SHIFT - s)
  }

  /** The dividend is as long as the divisor, and its shifted top digit is smaller. */
  ghost predicate TopBelow(a: seq<Digit>, b: seq<Digit>)
    requires |a| >= 2 && |b| >= 2
  {
    && b[|b| - 1] > 0
    && var s := NormalizingShift(b[|b| - 1]);
      |a| == |b| && ShiftedTop(a, s) < ShiftedTop(b, s)
  }

  ghost predicate ZeroDigits(d: seq<Digit>) {
    forall k :: 0 <= k < |d| ==> d[k] == 0
  }

  lemma ZeroMeansZeros(d: seq<Digit>)
    ensures V(d) == 0 ==> ZeroDigits(d)
  {
    if V(d) == 0 { VTopZeros(d, 0); }
  }

  lemma TopBelowExample()
    ensures TopBelow([0, 1], [2, 1])
  {
    hide Pow;
    assert Msb(1) == 0;
    assert NormalizingShift(1) == 29;
    Pow2Small();
    DivModUnique(0, Pow(2, 1), 0, 0);
  }

  lemma ShiftedTopBrackets(d: seq<Digit>, s: nat)
    requires |d| >= 2 && s < SHIFT
    ensures Lift(ShiftedTop(d, s), |d| - 1) <= V(d) * Pow(2, s) < Lift(ShiftedTop(d, s) + 1, |d| - 1)
  {
    hide V, Lift, Pow, P;
    var k, p, h := |d| - 2, Pow(2, s), Pow(2, SHIFT - s);
    var low, d1: int, d2: int := V(d[..k]), d[k + 1], d[k];
    Pow2Parts(s);
    VTop(d);
    assert d[..k + 1][..k] == d[..k];
    VTop(d[..k + 1]);
    VBound(d[..k]);
    DivModLaw(d2, h);
    var c, e := d2 / h, d2 % h;
    ShiftedSum(low, d1, d2, c, e, p, h, k);
    LiftAdd(d1 * p + c, 1, k + 1);
    BelowOneDigit(low, e, p, h, k);
  }

  /** A shifted number, with the bits that move into the top digit apart. */
  lemma ShiftedSum(low: int, d1: int, d2: int, c: int, e: int, p: int, h: int, k: nat)
    requires d2 == c * h + e && p * h == BASE
    ensures (low + Lift(d2, k) + Lift(d1, k + 1)) * p == Lift(d1 * p + c, k + 1) + (low * p + Lift(p * e, k))
  {
    hide Lift;
    Distribute(p, low + Lift(d2, k), Lift(d1, k + 1));
    Distribute(p, low, Lift(d2, k));
    LiftMul(p, d1, k + 1);
    LiftMul(p, d2, k);
    ShiftedParts(d2, c, e, p, h);
    LiftAdd(BASE * c, p * e, k);
    LiftBase(c, k);
    LiftAdd(d1 * p, c, k + 1);
  }

  lemma ShiftedParts(d: int, c: int, e: int, p: int, h: int)
    requires d == c * h + e && p * h == BASE
    ensures p * d == BASE * c + p * e
  {
    Distribute(p, c * h, e);
    MulSwap(p, c, h);
  }

  /** What lies below the shifted top digit is less than one of its units. */
  lemma BelowOneDigit(low: int, e: int, p: int, h: int, k: nat)
    requires 0 <= low < P(k) && 0 <= e < h && 0 < p && p * h == BASE
    ensures 0 <= low * p + Lift(p * e, k) < Lift(1, k + 1)
  {
    hide Lift, P;
    LowBelow(low, e, k);
    UnitsBelow(e, p, h, k);
    LiftMul(p, e, k);
    TimesBetween(low, Lift(e, k), Lift(e + 1, k), p);
  }

  lemma LowBelow(low: int, e: int, k: nat)
    requires 0 <= low < P(k) && 0 <= e
    ensures 0 <= Lift(e, k) && low + Lift(e, k) < Lift(e + 1, k)
  {
    hide Lift, P;
    PAsLift(k);
    LiftAdd(e, 1, k);
    LiftMono(0, e, k);
    LiftZero(k);
  }

  lemma UnitsBelow(e: int, p: int, h: int, k: nat)
    requires e < h && 0 < p && p * h == BASE
    ensures Lift(e + 1, k) * p <= Lift(1, k + 1)
  {
    hide Lift;
    MulMono(e + 1, h, p);
    LiftMono(p * (e + 1), BASE, k);
    LiftBase(1, k);
    LiftMul(p, e + 1, k);
  }

  lemma TimesBetween(low: int, x: int, y: int, p: int)
    requires 0 <= low && 0 <= x && low + x < y && 0 < p
    ensures 0 <= low * p + p * x < y * p
  {
    Distribute(p, low, x);
    MulMono(0, low + x, p);
    StrictlyLess(low + x, y, p);
  }

  lemma SameTop(x: int, t: int, u: int, k: nat)
    requires Lift(t, k) <= x < Lift(t + 1, k) && Lift(u, k) <= x < Lift(u + 1, k)
    ensures t == u
  {
    hide Lift;
    if t < u { LiftMono(t + 1, u, k); }
    if u < t { LiftMono(u + 1, t, k); }
  }

  /** The shifted number: its top digit, or a digit more when the top overflows. */
  lemma ShiftedTopOf(d: seq<Digit>, n: seq<Digit>, s: nat)
    requires |d| >= 2 && s < SHIFT && Trimmed(n) && |n| >= |d| && V(n) == V(d) * Pow(2, s)
    ensures |n| == |d| ==> n[|n| - 1] == ShiftedTop(d, s)
    ensures |n| > |d| ==> ShiftedTop(d, s) >= BASE
  {
    hide V, Lift, Pow, ShiftedTop;
    var k, t := |d| - 1, ShiftedTop(d, s);
    ShiftedTopBrackets(d, s);
    if |n| == |d| {
      VTopDigit(n);
      SameTop(V(n), t, n[k], k);
    } else {
      VPositive(n, |n| - 1);
      PMonotone(k + 1, |n| - 1);
      PAsLift(k + 1);
      LiftBase(1, k);
      if t + 1 <= BASE { LiftMono(t + 1, BASE, k); }
    }
  }

  /** Whether the dividend gets a digit on top can be told before the shift. */
  lemma TopBelowAfterShift(a: seq<Digit>, b: seq<Digit>, na: seq<Digit>, nb: seq<Digit>)
    requires 2 <= |b| <= |a| <= |na| && |nb| == |b| && b[|b| - 1] > 0 && Trimmed(na) && Trimmed(nb)
    requires var s := NormalizingShift(b[|b| - 1]); V(na) == V(a) * Pow(2, s) && V(nb) == V(b) * Pow(2, s)
    ensures |na| == |b| && na[|na| - 1] < nb[|nb| - 1] <==> TopBelow(a, b)
  {
    hide V, Lift, P, Pow, Trimmed, ShiftedTop;
    var s := NormalizingShift(b[|b| - 1]);
    ShiftedTopOf(a, na, s);
    ShiftedTopOf(b, nb, s);
  }

  /** The operands shifted, with a zero digit on top of the dividend where one is needed. */
  method NormalizeOperands(a: BigInteger, b: BigInteger)
      returns (na: BigInteger, nb: BigInteger, s: nat, size: nat, ghost released: bool)
    requires a.Valid() && b.Valid() && a.Normalized() && b.Normalized()
    requires 2 <= b.Len() <= a.Len() && (MayDivide(a, b) || OneTurn(a, b))
    modifies a.Digits
    ensures fresh(na) && na.Valid() && fresh(nb) && nb.Valid()
    ensures na.Digits == a.Digits || fresh(na.Digits)
    ensures nb.Digits == b.Digits || fresh(nb.Digits)
    ensures na.Digits == a.Digits <==> old(Borrows(a, b)) && !released
    ensures released ==> old(Borrows(a, b) && Grows(a, b))
    ensures na.Digits == a.Digits ==> s == 0 && na.Heap
    ensures na.Digits != a.Digits ==> a.Digits[..] == old(a.Digits[..])
    ensures b.Mag() == old(b.Mag())
    ensures b.Len() <= size <= na.Allocated && b.Len() <= nb.Allocated && s < SHIFT
    ensures na.Digits == nb.Digits ==> size == b.Len() + 1 && na.Digits == a.Digits
    ensures na.Digits == a.Digits ==>
      na.Digits[..a.Len()] == old(a.Mag()) && (size > a.Len() ==> size == a.Len() + 1 && na.Digits[a.Len()] == 0)
    ensures b.Heap && b.Digits[b.Len() - 1] >= HALF_BASE ==> nb.Digits == b.Digits
    ensures V(na.Digits[..size]) == old(a.Magnitude()) * Pow(2, s)
    ensures V(nb.Digits[..b.Len()]) == old(b.Magnitude()) * Pow(2, s)
    ensures nb.Digits[b.Len() - 1] >= HALF_BASE
    ensures na.Digits[size - 1] < nb.Digits[b.Len() - 1]
    ensures size == b.Len() <==> old(TopBelow(a.Mag(), b.Mag()))
  {
    hide V, Lift, P, Pow, Trimmed, TopBelow, NormalizingShift;
    na, nb, s := ShiftOperands(a, b);
    ghost var lent, moved := na.Digits == a.Digits, false;
    size, moved := GrowDividend(na, nb.Digits[b.Len() - 1]);
    released := moved && lent;
    assert na.Digits == a.Digits ==> na.Digits[..a.Len()] == na.Mag();
  }

  /** The operands shifted until the top digit of the divisor has its high bit set. */
  method ShiftOperands(a: BigInteger, b: BigInteger) returns (na: BigInteger, nb: BigInteger, s: nat)
    requires a.Valid() && b.Valid() && a.Normalized() && b.Normalized() && 2 <= b.Len() <= a.Len()
    ensures fresh(na) && na.Valid() && fresh(nb) && nb.Valid() && na != nb
    ensures fresh(na.Digits) || (s == 0 && a.Heap && na.Digits == a.Digits)
    ensures fresh(nb.Digits) || (s == 0 && b.Heap && nb.Digits == b.Digits)
    ensures na.Digits == nb.Digits ==> na.Digits == a.Digits == b.Digits
    ensures na.Digits == a.Digits <==> Borrows(a, b)
    ensures s == 0 ==> na.Size == a.Size && na.Heap == a.Heap && na.Mag() == a.Mag() && na.Allocated == a.Allocated
    ensures s == 0 <==> b.Digits[b.Len() - 1] >= HALF_BASE
    ensures s == 0 ==> nb.Mag() == b.Mag() && (b.Heap ==> nb.Digits == b.Digits)
    ensures a.Len() <= na.Len() && nb.Len() == b.Len() && s < SHIFT
    ensures na.Magnitude() == a.Magnitude() * Pow(2, s) && nb.Magnitude() == b.Magnitude() * Pow(2, s)
    ensures nb.Digits[b.Len() - 1] >= HALF_BASE
    ensures na.Len() == b.Len() && na.Digits[na.Len() - 1] < nb.Digits[b.Len() - 1] <==> TopBelow(a.Mag(), b.Mag())
  {
    hide V, Lift, P, Pow, Trimmed, TopBelow, NormalizingShift;
    TopNotZero(b);
    s := NormalizingShift(b.Digits[b.Len() - 1]);
    na := LShift(a, s);
    nb := LShift(b, s);
    ShiftedOperands(a.Mag(), b.Mag(), na.Mag(), nb.Mag(), s);
  }

  /** The digits of the shifted operands. */
  lemma ShiftedOperands(a: seq<Digit>, b: seq<Digit>, na: seq<Digit>, nb: seq<Digit>, s: nat)
    requires 2 <= |b| <= |a| && b[|b| - 1] > 0 && s == NormalizingShift(b[|b| - 1])
    requires Trimmed(a) && Trimmed(na) && Trimmed(nb)
    requires V(na) == V(a) * Pow(2, s) && V(nb) == V(b) * Pow(2, s)
    ensures s < SHIFT && (s == 0 <==> b[|b| - 1] >= HALF_BASE)
    ensures |a| <= |na| && |nb| == |b| && nb[|nb| - 1] >= HALF_BASE
    ensures |na| == |b| && na[|na| - 1] < nb[|nb| - 1] <==> TopBelow(a, b)
  {
    hide V, Lift, P, Pow, Trimmed, TopBelow;
    DivisorNormalized(b, nb);
    VBound(a);
    ShiftGrows(V(a), s);
    LargerIsLonger(a, na);
    TopBelowAfterShift(a, b, na, nb);
  }

  /** A high-order zero digit is appended unless the top digit is already below the divisor's. */
  method GrowDividend(na: BigInteger, top: Digit) returns (size: nat, ghost released: bool)
    requires na.Valid() && na.Len() > 0 && top > 0
    modifies na, na.Digits
    ensures na.Valid() && na.Size == old(na.Size) && na.Len() <= size <= na.Allocated
    ensures size == na.Len() <==> old(na.Digits[na.Len() - 1]) < top
    ensures size > na.Len() ==> size == na.Len() + 1 && na.Digits[na.Len()] == 0
    ensures V(na.Digits[..size]) == old(na.Magnitude()) && na.Digits[size - 1] < top
    ensures na.Mag() == old(na.Mag())
    ensures old(na.Heap) ==> na.Heap
    ensures na.Digits == old(na.Digits) || fresh(na.Digits)
    ensures old(na.Heap) ==> (na.Digits == old(na.Digits) <==> !released)
    ensures released ==> old(na.Heap) && old(na.Digits[na.Len() - 1]) >= top && old(na.Allocated) == na.Len()
    ensures old(na.Digits)[..na.Len()] == old(na.Mag())
    ensures na.Digits != old(na.Digits) ==> old(na.Digits)[..] == old(na.Digits[..])
  {
    hide V, Lift, P;
    size, released := na.Len(), false;
    if na.Digits[size - 1] >= top {
      ghost var mag, d := na.Mag(), na.Digits;
      released := na.EnsureDigits(size + 1);
      na.Digits[size] := 0;
      VPush(mag, 0);
      LiftZero(size);
      assert na.Mag() == mag;
      assert na.Digits[..size + 1] == mag + [0];
      size := size + 1;
    }
  }

  lemma TopNotZero(b: BigInteger)
    requires b.Valid() && b.Normalized() && b.Len() > 0
    ensures b.Digits[b.Len() - 1] != 0
  {
  }

  lemma ShiftGrows(v: int, s: nat)
    requires v >= 0
    ensures v <= v * Pow(2, s)
  {
    MulMono(1, Pow(2, s), v);
  }

  /**
  `x_divrem`: Knuth's Algorithm D. The quotient and the remainder are those of the
  dividend as it was on entry. A dividend that lends its block is left with the remainder
  in its lower digits, or without the block if `realloc` had to move it (`released`); any
  other dividend is unchanged. Of a number divided by itself only zeros are left. The
  remainder keeps a borrowed block unless it fits in the inline buffer, and `maybe_small`
  releases the block then. The quotient asks for no digits, against the assertion of
  `ensure_digits`, exactly when the shifted top digit of an equally long dividend is
  below the divisor's.
   */
  method XDivRem(a: BigInteger, b: BigInteger)
      returns (q: BigInteger, r: BigInteger, asserted: bool, ghost released: bool)
    requires a.Valid() && b.Valid() && a.Normalized() && b.Normalized()
    requires 2 <= b.Len() <= a.Len() && (MayDivide(a, b) || OneTurn(a, b))
    modifies a.Digits
    ensures fresh(q) && q.Valid() && fresh(q.Digits) && q.Normalized() && q.Compact() && q.Size >= 0
    ensures fresh(r) && r.Valid() && r.Normalized() && r.Compact() && r.Size >= 0
    ensures (r.Digits == a.Digits || fresh(r.Digits)) && q != r
    ensures old(a.Magnitude()) == q.Magnitude() * old(b.Magnitude()) + r.Magnitude() <==> old(ComesOut(a, b))
    ensures 0 <= old(a.Magnitude()) - q.Magnitude() * old(b.Magnitude()) < old(b.Magnitude())
    ensures released ==> old(Borrows(a, b) && Grows(a, b))
    ensures !old(Borrows(a, b)) || released ==> a.Digits[..] == old(a.Digits[..])
    ensures old(Borrows(a, b)) && !released ==> V(a.Digits[..b.Len()]) == r.Magnitude()
    ensures a.Digits != b.Digits || !old(Borrows(a, b)) || released ==> b.Mag() == old(b.Mag())
    ensures a.Digits == b.Digits && a.Len() == b.Len() ==>
      q.Magnitude() == 1 && r.Size == 0 && (old(Borrows(a, b)) && !released ==> ZeroDigits(b.Mag()))
    ensures r.Digits == a.Digits <==> old(Borrows(a, b)) && !released && r.Len() > 2
    ensures asserted <==> !old(TopBelow(a.Mag(), b.Mag()))
  {
    hide V, Lift, P, Pow, Trimmed, TopBelow, Borrows, Grows, ZeroDigits, StaysRight;
    ghost var va, vb := a.Magnitude(), b.Magnitude();
    ghost var right := ComesOut(a, b);
    hide ComesOut;
    var na, s;
    q, na, s, asserted, released := DivideShifted(a, b);
    r := RestoreRemainder(na, s);
    MagnitudeBounds(r);
    if va == vb && right { OnceExactly(va, q.Magnitude(), r.Magnitude()); }
    ZeroMeansZeros(b.Mag());
  }

  /** `x_divrem` up to shifting the remainder back. */
  method DivideShifted(a: BigInteger, b: BigInteger)
      returns (q: BigInteger, na: BigInteger, s: nat, asserted: bool, ghost released: bool)
    requires a.Valid() && b.Valid() && a.Normalized() && b.Normalized()
    requires 2 <= b.Len() <= a.Len() && (MayDivide(a, b) || OneTurn(a, b))
    modifies a.Digits
    ensures fresh(q) && q.Valid() && fresh(q.Digits) && q.Normalized() && q.Compact() && q.Size >= 0
    ensures fresh(na) && na.Valid() && na.Size == b.Len() && na != q && na.Digits != q.Digits
    ensures na.Digits == a.Digits || fresh(na.Digits)
    ensures na.Digits == a.Digits <==> old(Borrows(a, b)) && !released
    ensures na.Digits == a.Digits ==> s == 0 && na.Heap
    ensures DivisionOf(old(a.Magnitude()), old(b.Magnitude()), q.Magnitude(), na.Magnitude() / Pow(2, s),
                       old(ComesOut(a, b)))
    ensures s == 0 ==> na.Magnitude() / Pow(2, s) == na.Magnitude()
    ensures released ==> old(Borrows(a, b) && Grows(a, b))
    ensures na.Digits != a.Digits ==> a.Digits[..] == old(a.Digits[..])
    ensures na.Digits != a.Digits || a.Digits != b.Digits ==> b.Mag() == old(b.Mag())
    ensures asserted <==> !old(TopBelow(a.Mag(), b.Mag()))
  {
    hide V, Lift, P, Pow, Trimmed, TopBelow, StaysRight, DivisionOf;
    var m := b.Len();
    TopNotZero(b);
    ghost var va, vb, right := a.Magnitude(), b.Magnitude(), ComesOut(a, b);
    ghost var lone, am, bm := a.Digits != b.Digits || !Borrows(a, b), a.Mag(), b.Mag();
    var nb, size;
    na, nb, s, size, released := NormalizeOperands(a, b);
    RightInOneTurn(lone, na.Digits == nb.Digits, am, bm, na.Digits[..size], nb.Digits[..m], right);
    hide Borrows, Grows, ComesOut, MayDivide, OneTurn;
    ghost var p, u, v := Pow(2, s), V(na.Digits[..size]), V(nb.Digits[..m]);
    assert right || s == 0;
    q, asserted := DivideNormalized(na, nb, m, size);
    PowPositive(s);
    UnnormalizeBoth(va, vb, u, v, q.Magnitude(), na.Magnitude(), p, right, s == 0);
  }

  lemma RightInOneTurn(lone: bool, shared: bool, am: seq<Digit>, bm: seq<Digit>, u: seq<Digit>, v: seq<Digit>,
                       right: bool)
    requires 2 <= |bm| <= |am| && bm[|bm| - 1] > 0
    requires right <==> (!lone && |am| == |bm| + 1 ==> StaysRight(am, bm))
    requires (lone ==> !shared) && (!lone && |am| > |bm| ==> shared)
    requires shared ==> v == bm && |am| <= |bm| + 1 && u == if |am| == |bm| then bm + [0] else am
    ensures !shared || StaysRight(u, v) <==> right
  {
    hide StaysRight;
    DividedByItselfIsRight(bm);
  }

  /** The digits of a number divided by itself never need the correction. */
  lemma DividedByItselfIsRight(v: seq<Digit>)
    ensures |v| >= 2 && v[|v| - 1] > 0 ==> StaysRight(v + [0], v)
  {
    if |v| >= 2 && v[|v| - 1] > 0 { DividedByItself(v + [0], v); }
  }

  lemma RestOfBoth(a: int, b: int, q: int, r: int)
    requires a == q * b + r && 0 <= r < b
    ensures 0 <= a - q * b < b
  {
  }

  /** The division equation before and after shifting back; without a shift nothing changes. */
  lemma UnnormalizeBoth(a: int, b: int, u: int, v: int, q: int, rest: int, p: int, right: bool, unshifted: bool)
    requires p > 0 && u == a * p && v == b * p && rest >= 0 && DivisionOf(u, v, q, rest, right)
    requires (unshifted ==> p == 1) && (right || unshifted)
    ensures DivisionOf(a, b, q, rest / p, right) && (unshifted ==> rest / p == rest)
  {
    SameFactor(v, b * p, q);
    if right {
      Unnormalize(a, b, q, rest, p);
      RestOfBoth(a, b, q, rest / p);
    }
    if unshifted { DivModUnique(rest, p, rest, 0); }
  }

  lemma OnceExactly(v: int, q: int, r: int)
    requires 0 <= r < v && v == q * v + r
    ensures q == 1 && r == 0
  {
    if q <= 0 { MulMono(q, 0, v); }
    if q >= 2 { MulMono(2, q, v); }
  }

  /** The quotient of the normalized operands; `na` is left holding the remainder. */
  method DivideNormalized(na: BigInteger, nb: BigInteger, m: nat, size: nat)
      returns (q: BigInteger, asserted: bool)
    requires na.Valid() && nb.Valid()
    requires 2 <= m <= size <= na.Allocated && m <= nb.Allocated
    requires na.Digits != nb.Digits || size == m + 1
    requires nb.Digits[m - 1] >= HALF_BASE && na.Digits[size - 1] < nb.Digits[m - 1]
    modifies na`Size, na.Digits
    ensures na.Valid() && na.Size == m
    ensures fresh(q) && q.Valid() && fresh(q.Digits) && q.Normalized() && q.Compact() && q.Size >= 0
    ensures DivisionOf(old(V(na.Digits[..size])), old(V(nb.Digits[..m])), q.Magnitude(), na.Magnitude(),
                       na.Digits != nb.Digits || old(StaysRight(na.Digits[..size], nb.Digits[..m])))
    ensures na.Magnitude() >= 0
    ensures asserted <==> size > m
  {
    hide V, Lift, P, Trimmed, StaysRight, DivisionOf;
    q, asserted := MakeRoom(size - m);
    q.Size := size - m;
    DivideLoop(na.Digits, size, nb.Digits, m, q.Digits);
    VBound(na.Digits[..m]);
    na.Size := m;
    q.Normalize();
  }

  /** The remainder: `na` shifted back. */
  method RestoreRemainder(na: BigInteger, s: nat) returns (r: BigInteger)
    requires na.Valid() && na.Size >= 0
    ensures fresh(r) && r.Valid() && r.Normalized() && r.Compact() && r.Size >= 0
    ensures r.Digits == na.Digits || fresh(r.Digits)
    ensures r.Digits == na.Digits <==> s == 0 && na.Heap && r.Len() > 2
    ensures r.Magnitude() == na.Magnitude() / Pow(2, s)
  {
    hide V, Lift, P, Pow, Trimmed;
    r := RShiftNonNegative(na, s);
    r.Normalize();
  }

  lemma PowPositive(s: nat)
    ensures Pow(2, s) > 0 && Pow(2, 0) == 1
  {
  }

  /**
  Why a dividend that is longer than the divisor must not share its block: the turn of
  Algorithm D on the block 1, 0, 2^29, 5, divided by its own lower three digits. The quotient
  digit 10 is right, but 2^89 - 9 is what should be left.
   */
  method LongerSharedDividend() returns (x: array<Digit>, qdigit: Digit)
    ensures fresh(x) && x.Length == 4 && qdigit == 10
    ensures V(x[..3]) == BASE * BASE * BASE - 20
  {
    hide V, TooLarge, DoubledInstead;
    x := new Digit[4];
    x[0], x[1], x[2], x[3] := 1, 0, HALF_BASE, 5;
    ghost var u, v := x[..4], x[..3];
    assert u == [1, 0, HALF_BASE, 5] && v == [1, 0, HALF_BASE] && x[1..4] == [0, HALF_BASE, 5];
    VThree(v);
    VThree(x[1..4]);
    VTop(u);
    assert u[..3] == v;
    assert x[0..4] == u;
    OverestimateByOne(u, v);
    qdigit := DivideStep(x, 0, x, 3);
    TenIsTheDigit(u, v, qdigit, V(x[..3]));
  }

  /** The same input for the whole division, which then does not satisfy its equation. */
  method LongerSharedQuotient() returns (q: BigInteger, r: BigInteger)
    ensures q.Valid() && r.Valid()
    ensures var v := HALF_BASE * BASE * BASE; 11 * v + 1 != q.Magnitude() * (v + 1) + r.Magnitude()
  {
    hide V, Lift, P, StaysRight;
    var a := new BigInteger.WithRoom(4);
    a.Digits[0], a.Digits[2], a.Digits[3] := 1, HALF_BASE, 5;
    a.Size := 4;
    var b := new BigInteger.CopyOf(a);
    b.Size := 3;
    assert a.Mag() == [1, 0, HALF_BASE, 5] && b.Mag() == [1, 0, HALF_BASE];
    ValueOfExample(a.Mag(), b.Mag());
    ExampleFails(a.Mag(), b.Mag());
    var asserted;
    ghost var released;
    q, r, asserted, released := XDivRem(a, b);
  }

  lemma ExampleFails(u: seq<Digit>, v: seq<Digit>)
    requires u == [1, 0, HALF_BASE, 5] && v == [1, 0, HALF_BASE]
    ensures !StaysRight(u, v)
  {
    hide V, P, TooLarge;
    ValueOfExample(u, v);
    OverestimateByOne(u, v);
    DivModUnique(V(u), V(v), 10, V(v) - 10);
  }

  lemma ValueOfExample(u: seq<Digit>, v: seq<Digit>)
    requires u == [1, 0, HALF_BASE, 5] && v == [1, 0, HALF_BASE]
    ensures V(v) == HALF_BASE * BASE * BASE + 1
    ensures V(u) == 11 * (V(v) - 1) + 1 && P(3) == 2 * (V(v) - 1)
  {
    hide V;
    VThree(v);
    VTop(u);
    assert u[..3] == v;
  }

  lemma OverestimateByOne(u: seq<Digit>, v: seq<Digit>)
    requires u == [1, 0, HALF_BASE, 5] && v == [1, 0, HALF_BASE]
    ensures TooLarge(u, v)
  {
    hide V;
    ValueOfExample(u, v);
    DivModUnique(Two(Two(5, HALF_BASE), 0), Two(HALF_BASE, 0), 11, 0);
  }

  lemma TenIsTheDigit(u: seq<Digit>, v: seq<Digit>, q: int, now: int)
    requires u == [1, 0, HALF_BASE, 5] && v == [1, 0, HALF_BASE]
    requires 0 <= V(u) - q * V(v) < V(v) && DoubledInstead(now, V(u) - (q + 1) * V(v), P(3))
    ensures q == 10 && now == BASE * BASE * BASE - 20
  {
    hide V, P;
    ValueOfExample(u, v);
    var b := V(v);
    if q <= 9 { MulMono(q, 9, b); }
    if q >= 11 { MulMono(11, q, b); }
  }
}
