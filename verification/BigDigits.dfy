/**
Digit vectors of big integers: base-2^30 digits, least significant first
(`include/lstd/big_integer.h`, lines 17-37).
 */
module BigDigits {
  import opened Powers

  const SHIFT: nat := 30
  const BASE: int := 0x4000_0000
  const MASK: int := 0x3fff_ffff

  /** The top bit of a digit. */
  const HALF_BASE: int := 0x2000_0000

  /** A digit of a valid big integer: a `u32` below `BASE`. */
  type Digit = d: int | 0 <= d < BASE

  /** `v` moved up by `n` digit positions: v * BASE^n, kept free of products of variables. */
  ghost function Lift(v: int, n: nat): int {
    if n == 0 then v else BASE * Lift(v, n - 1)
  }

  /** BASE to the power `n`. */
  ghost function P(n: nat): int {
    Lift(1, n)
  }

  /** The number a digit vector stands for. */
  ghost function V(s: seq<Digit>): int {
    if |s| == 0 then 0 else V(s[..|s| - 1]) + Lift(s[|s| - 1], |s| - 1)
  }

  lemma {:induction false} LiftAdd(a: int, b: int, n: nat)
    ensures Lift(a + b, n) == Lift(a, n) + Lift(b, n)
    ensures Lift(a - b, n) == Lift(a, n) - Lift(b, n)
  {
    if n > 0 { LiftAdd(a, b, n - 1); }
  }

  lemma {:induction false} LiftLift(v: int, m: nat, n: nat)
    ensures Lift(Lift(v, m), n) == Lift(v, m + n)
  {
    if n > 0 { LiftLift(v, m, n - 1); }
  }

  lemma {:induction false} LiftBase(v: int, n: nat)
    ensures Lift(BASE * v, n) == Lift(v, n + 1)
  {
    if n > 0 { LiftBase(v, n - 1); }
  }

  lemma {:induction false} LiftMono(a: int, b: int, n: nat)
    requires a <= b
    ensures Lift(a, n) <= Lift(b, n)
    ensures a < b ==> Lift(a, n) < Lift(b, n)
  {
    if n > 0 { LiftMono(a, b, n - 1); }
  }

  lemma {:induction false} LiftZero(n: nat)
    ensures Lift(0, n) == 0
  {
    if n > 0 { LiftZero(n - 1); }
  }

  lemma LiftNeg(v: int, n: nat)
    ensures Lift(-v, n) == -Lift(v, n)
  {
    LiftAdd(v, -v, n);
    LiftZero(n);
  }

  lemma {:induction false} LiftMul(a: int, b: int, n: nat)
    ensures Lift(a * b, n) == a * Lift(b, n)
  {
    if n > 0 {
      LiftMul(a, b, n - 1);
      MulSwap(a, BASE, Lift(b, n - 1));
    }
  }

  lemma PAdd(m: nat, n: nat)
    ensures P(m) * P(n) == P(m + n)
  {
    LiftMul(P(m), 1, n);
    LiftLift(1, m, n);
  }

  lemma PPositive(n: nat)
    ensures P(n) > 0
  {
    LiftMono(0, 1, n);
    LiftZero(n);
  }

  lemma {:induction false} PMonotone(m: nat, n: nat)
    requires m <= n
    ensures P(m) <= P(n)
    ensures m < n ==> BASE * P(m) <= P(n)
  {
    PPositive(m);
    if m < n { PMonotone(m, n - 1); }
  }

  /** A vector of n digits stands for a number in [0, BASE^n). */
  lemma {:induction false} VBound(s: seq<Digit>)
    ensures 0 <= V(s) < P(|s|)
  {
    if |s| > 0 {
      var n := |s| - 1;
      VBound(s[..n]);
      LiftMono(s[n] as int + 1, BASE, n);
      LiftAdd(s[n], 1, n);
      LiftBase(1, n);
      LiftMono(0, s[n], n);
      LiftZero(n);
    }
  }

  /** One more digit at the top. */
  lemma VPush(s: seq<Digit>, d: Digit)
    ensures V(s + [d]) == V(s) + Lift(d, |s|)
  {
    assert (s + [d])[..|s|] == s;
  }

  lemma VTop(s: seq<Digit>)
    requires |s| > 0
    ensures V(s) == V(s[..|s| - 1]) + Lift(s[|s| - 1], |s| - 1)
  {
  }

  /** The prefix of length k + 1 has one more digit than the prefix of length k. */
  lemma VPrefix(s: seq<Digit>, k: nat)
    requires k < |s|
    ensures V(s[..k + 1]) == V(s[..k]) + Lift(s[k], k)
  {
    assert s[..k + 1][..k] == s[..k];
  }

  /** The window of k + 1 digits from `lo` has one more digit than the window of k. */
  lemma VWindow(s: seq<Digit>, lo: nat, k: nat)
    requires lo + k < |s|
    ensures V(s[lo..lo + k + 1]) == V(s[lo..lo + k]) + Lift(s[lo + k], k)
  {
    assert s[lo..lo + k + 1][..k] == s[lo..lo + k];
  }

  lemma {:induction false} VConcat(s: seq<Digit>, t: seq<Digit>)
    ensures V(s + t) == V(s) + Lift(V(t), |s|)
  {
    if |t| == 0 {
      assert s + t == s;
      LiftZero(|s|);
    } else {
      var n := |t| - 1;
      VConcat(s, t[..n]);
      VPush(s + t[..n], t[n]);
      assert s + t[..n] + [t[n]] == s + t;
      LiftLift(t[n], n, |s|);
      LiftAdd(V(t[..n]), Lift(t[n], n), |s|);
    }
  }

  /** Cutting a vector at position k. */
  lemma VSplit(s: seq<Digit>, k: nat)
    requires k <= |s|
    ensures V(s) == V(s[..k]) + Lift(V(s[k..]), k)
  {
    assert s == s[..k] + s[k..];
    VConcat(s[..k], s[k..]);
  }

  /** The least significant digit. */
  lemma VHead(s: seq<Digit>)
    requires |s| > 0
    ensures V(s) == s[0] + BASE * V(s[1..])
  {
    VSplit(s, 1);
    assert s[..1][..0] == [];
    assert V(s[..1]) == s[0];
    assert Lift(V(s[1..]), 1) == BASE * Lift(V(s[1..]), 0);
  }

  lemma {:induction false} VZero(s: seq<Digit>)
    requires forall k :: 0 <= k < |s| ==> s[k] == 0
    ensures V(s) == 0
  {
    if |s| > 0 {
      VZero(s[..|s| - 1]);
      LiftZero(|s| - 1);
    }
  }

  /** A nonzero digit at position k makes the number at least BASE^k. */
  lemma VPositive(s: seq<Digit>, k: nat)
    requires k < |s| && s[k] != 0
    ensures V(s) >= P(k) > 0
  {
    VSplit(s, k);
    VBound(s[..k]);
    VHead(s[k..]);
    VBound(s[k..][1..]);
    LiftMono(1, V(s[k..]), k);
    PPositive(k);
  }

  /** A number below BASE^k has only zeros from position k on. */
  lemma VTopZeros(s: seq<Digit>, k: nat)
    requires k <= |s| && V(s) < P(k)
    ensures forall i :: k <= i < |s| ==> s[i] == 0
  {
    forall i | k <= i < |s| ensures s[i] == 0 {
      if s[i] != 0 {
        VPositive(s, i);
        PMonotone(k, i);
      }
    }
  }

  /** Zeros at the top do not change the number. */
  lemma VTrim(s: seq<Digit>, k: nat)
    requires k <= |s| && forall i :: k <= i < |s| ==> s[i] == 0
    ensures V(s) == V(s[..k])
  {
    VSplit(s, k);
    VZero(s[k..]);
    LiftZero(k);
  }

  /** A vector whose top digit is not zero: the form `normalize` produces. */
  ghost predicate Trimmed(s: seq<Digit>) {
    |s| > 0 ==> s[|s| - 1] != 0
  }

  /** Two vectors with the same number of digits and the same value are equal. */
  lemma {:induction false} VInjective(s: seq<Digit>, t: seq<Digit>)
    requires |s| == |t| && V(s) == V(t)
    ensures s == t
  {
    if |s| > 0 {
      VHead(s);
      VHead(t);
      VInjective(s[1..], t[1..]);
      assert s == [s[0]] + s[1..] && t == [t[0]] + t[1..];
    }
  }

  /** Trimmed vectors represent each number exactly once. */
  lemma TrimmedUnique(s: seq<Digit>, t: seq<Digit>)
    requires Trimmed(s) && Trimmed(t)
    ensures s == t <==> V(s) == V(t)
  {
    if V(s) == V(t) {
      if |s| != |t| {
        var long, short := if |s| < |t| then t else s, if |s| < |t| then s else t;
        VBound(short);
        VPositive(long, |long| - 1);
        PMonotone(|short|, |long| - 1);
      }
      VInjective(s, t);
    }
  }
}
