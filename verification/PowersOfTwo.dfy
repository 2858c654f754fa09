/** The least power of two that is not below a number (`include/lstd/common.h`, lines 3651-3663). */
module PowersOfTwo {
  import opened Powers

  ghost predicate IsPow2(p: nat) {
    exists i: nat :: p == Pow(2, i)
  }

  /** The least power of two that is not below `x`. */
  ghost predicate IsCeilPow2(p: nat, x: nat) {
    IsPow2(p) && x <= p && (p > 1 ==> p < 2 * x)
  }

  lemma PowerAgain(p: nat)
    requires IsPow2(p)
    ensures p >= 1 && IsPow2(2 * p)
    ensures p > 1 ==> p % 2 == 0
  {
    var i: nat :| p == Pow(2, i);
    assert 2 * p == Pow(2, i + 1);
    if i > 0 { assert p == 2 * Pow(2, i - 1); }
  }

  /** A power of two strictly between `p` and `4 * p` is `2 * p`. */
  lemma PowerBetween(p: nat, q: nat)
    requires IsPow2(p) && IsPow2(q) && p < q < 4 * p
    ensures q == 2 * p
  {
    hide Pow;
    var i: nat :| p == Pow(2, i);
    var j: nat :| q == Pow(2, j);
    if j <= i { PowMonotone(2, j, i); }
    PowAdd(2, i, 2);
    Pow2Small();
    if j >= i + 2 { PowMonotone(2, i + 2, j); }
    PowAdd(2, i, 1);
  }

  lemma CeilPow2Unique(p: nat, q: nat, x: nat)
    requires IsCeilPow2(p, x) && IsCeilPow2(q, x)
    ensures p == q
  {
    hide IsPow2;
    if p < q { PowerAgain(p); PowerBetween(p, q); PowerAgain(q); }
    if q < p { PowerAgain(q); PowerBetween(q, p); PowerAgain(p); }
  }

  ghost function CeilPow2(x: nat): (p: nat)
    ensures IsCeilPow2(p, x)
  {
    if x <= 1 then
      Pow2Small();
      assert 1 == Pow(2, 0);
      1
    else
      var half := CeilPow2((x + 1) / 2);
      PowerAgain(half);
      2 * half
  }

  /** `ceil_pow_of_2` (include/lstd/common.h). */
  method CeilPowerOf2(x: nat) returns (power: nat)
    ensures power == CeilPow2(x)
  {
    hide CeilPow2, Doubling;
    if x <= 1 {
      CeilPow2Small(x);
      return 1;
    }
    power := 2;
    var rest: nat := (x - 1) / 2;
    DoublingStarts(x, rest);
    while rest != 0
      invariant Doubling(x, rest, power)
    {
      DoublingStep(x, rest, power);
      power := power * 2;
      rest := rest / 2;
    }
    DoublingEnds(x, power);
  }

  /** What is left of `x - 1` after halving it as often as `power` was doubled. */
  ghost predicate Doubling(x: nat, rest: nat, power: nat) {
    IsPow2(power) && power <= 2 * (x - 1) && rest * power <= x - 1 < (rest + 1) * power
  }

  lemma DoublingStarts(x: nat, rest: nat)
    requires x > 1 && rest == (x - 1) / 2
    ensures Doubling(x, rest, 2)
  {
    Pow2OnePowers();
  }

  lemma DoublingStep(x: nat, rest: nat, power: nat)
    requires rest != 0 && Doubling(x, rest, power)
    ensures Doubling(x, rest / 2, power * 2)
  {
    hide IsPow2;
    PowerAgain(power);
    HalveStep(rest, power, x - 1);
    MulMono(1, rest, power);
  }

  lemma DoublingEnds(x: nat, power: nat)
    requires Doubling(x, 0, power)
    ensures power == CeilPow2(x)
  {
    hide IsPow2, CeilPow2;
    CeilPow2Unique(power, CeilPow2(x), x);
  }

  lemma Pow2OnePowers()
    ensures IsPow2(1) && IsPow2(2) && IsPow2(8) && IsPow2(32)
  {
    Pow2Small();
  }

  lemma CeilPow2Small(x: nat)
    requires x <= 1
    ensures CeilPow2(x) == 1
  {
  }

  lemma HalveStep(rest: nat, power: nat, x: int)
    requires rest * power <= x < (rest + 1) * power
    ensures (rest / 2) * (power * 2) <= x < (rest / 2 + 1) * (power * 2)
  {
    var h := rest / 2;
    MulAssoc(h, 2, power);
    MulAssoc(h + 1, 2, power);
    MulMono(2 * h, rest, power);
    MulMono(rest + 1, 2 * h + 2, power);
  }
}
