/**
The signed operators: +, -, *, truncating and flooring division
(`include/lstd/big_integer.h`, lines 1175-1225 and 1245-1299).
 */
module BigOperators {
  import opened Powers
  import opened IntegerDivision
  import opened BigDigits
  import opened BigIntegers
  import opened BigAddSub
  import opened BigKaratsuba
  import opened BigDiv

  /** `operator+`. */
  method Add(lhs: BigInteger, rhs: BigInteger) returns (z: BigInteger)
    requires lhs.Valid() && rhs.Valid() && lhs.Normalized() && rhs.Normalized()
    ensures fresh(z) && z.Valid() && fresh(z.Digits) && z.Normalized() && z.Compact()
    ensures z.Value() == lhs.Value() + rhs.Value()
  {
    hide V, Lift, Trimmed;
    if lhs.Size < 0 {
      if rhs.Size < 0 {
        z := XAdd(lhs, rhs);
        NormalizedZero(z);
        z.Size := -z.Size;
      } else {
        z := XSub(rhs, lhs);
      }
    } else {
      if rhs.Size < 0 {
        z := XSub(lhs, rhs);
      } else {
        z := XAdd(lhs, rhs);
      }
    }
  }

  /** `operator-`. */
  method Subtract(lhs: BigInteger, rhs: BigInteger) returns (z: BigInteger)
    requires lhs.Valid() && rhs.Valid() && lhs.Normalized() && rhs.Normalized()
    ensures fresh(z) && z.Valid() && fresh(z.Digits) && z.Normalized() && z.Compact()
    ensures z.Value() == lhs.Value() - rhs.Value()
  {
    hide V, Lift, Trimmed;
    if lhs.Size < 0 {
      if rhs.Size < 0 {
        z := XSub(rhs, lhs);
      } else {
        z := XAdd(lhs, rhs);
        NormalizedZero(z);
        z.Size := -z.Size;
      }
    } else {
      if rhs.Size < 0 {
        z := XAdd(lhs, rhs);
      } else {
        z := XSub(lhs, rhs);
      }
    }
  }

  lemma NormalizedZero(z: BigInteger)
    requires z.Valid() && z.Normalized()
    ensures z.Size == 0 <==> z.Magnitude() == 0
    ensures z.Magnitude() >= 0
  {
    MagnitudeBounds(z);
  }

  /** `operator*`. */
  method Multiply(lhs: BigInteger, rhs: BigInteger) returns (z: BigInteger)
    requires lhs.Valid() && rhs.Valid() && lhs.Normalized() && rhs.Normalized()
    ensures fresh(z) && z.Valid() && fresh(z.Digits) && z.Normalized() && z.Compact()
    ensures z.Value() == lhs.Value() * rhs.Value()
  {
    hide V, Lift, Trimmed;
    SignedProduct(lhs.Magnitude(), rhs.Magnitude());
    z := KMul(lhs, rhs);
    NormalizedZero(z);
    if (lhs.Size < 0) != (rhs.Size < 0) && z.Size != 0 {
      z.Size := -z.Size;
    }
  }

  /** The outcome of a division; dividing by zero is a panic in the program. */
  datatype Division = DivisionByZero | Divided(Q: BigInteger, R: BigInteger)

  /** Fewer digits, or as many with a smaller top digit. */
  ghost predicate Shorter(lhs: BigInteger, rhs: BigInteger)
    requires lhs.Valid() && rhs.Valid() && rhs.Size != 0
    reads lhs, lhs.Digits, rhs, rhs.Digits
  {
    lhs.Len() < rhs.Len()
    || (lhs.Len() == rhs.Len() && lhs.Digits[lhs.Len() - 1] < rhs.Digits[rhs.Len() - 1])
  }

  /** The quick test of `divrem`. */
  method ShorterThan(lhs: BigInteger, rhs: BigInteger) returns (shorter: bool)
    requires lhs.Valid() && rhs.Valid() && lhs.Normalized() && rhs.Normalized() && rhs.Size != 0
    ensures shorter <==> Shorter(lhs, rhs)
    ensures shorter ==> lhs.Magnitude() < rhs.Magnitude()
  {
    hide V, Lift;
    var sizea, sizeb := lhs.Len(), rhs.Len();
    ShorterIsSmaller(lhs, rhs);
    shorter := sizea < sizeb || (sizea == sizeb && lhs.Digits[sizea - 1] < rhs.Digits[sizeb - 1]);
    if shorter && sizea == sizeb { TopDigitBelow(lhs.Mag(), rhs.Mag()); }
  }

  /** The operands reach `x_divrem`. */
  ghost predicate DividesLong(lhs: BigInteger, rhs: BigInteger)
    requires lhs.Valid() && rhs.Valid()
    reads lhs, lhs.Digits, rhs, rhs.Digits
  {
    rhs.Len() > 1 && !Shorter(lhs, rhs)
  }

  /** The division takes the block of the dividend. */
  ghost predicate Overwrites(lhs: BigInteger, rhs: BigInteger)
    requires lhs.Valid() && rhs.Valid()
    reads lhs, lhs.Digits, rhs, rhs.Digits
  {
    DividesLong(lhs, rhs) && Borrows(lhs, rhs)
  }

  /** The quotient asks for no digits, against the assertion of `ensure_digits`. */
  ghost predicate AsksForNone(lhs: BigInteger, rhs: BigInteger)
    requires lhs.Valid() && rhs.Valid()
    reads lhs, lhs.Digits, rhs, rhs.Digits
  {
    DividesLong(lhs, rhs) && TopBelow(lhs.Mag(), rhs.Mag())
  }

  /** What a division leaves of its operands. */
  twostate predicate Leaves(lhs: BigInteger, rhs: BigInteger, rest: int, released: bool)
    requires old(lhs.Valid() && rhs.Valid()) && lhs.Valid() && rhs.Valid()
    reads lhs, lhs.Digits, rhs, rhs.Digits
  {
    && (released ==> old(Overwrites(lhs, rhs) && Grows(lhs, rhs)))
    && (!old(Overwrites(lhs, rhs)) || released ==> lhs.Digits[..] == old(lhs.Digits[..]))
    && (old(Overwrites(lhs, rhs)) && !released ==>
          rhs.Len() <= lhs.Digits.Length && V(lhs.Digits[..rhs.Len()]) == rest)
    && (lhs.Digits != rhs.Digits || !old(Overwrites(lhs, rhs)) || released ==> rhs.Mag() == old(rhs.Mag()))
  }

  /** The remainder, of `len` digits, has the block of the dividend: as its copy, or left in it. */
  ghost predicate TakesBlock(lhs: BigInteger, rhs: BigInteger, len: nat, released: bool)
    requires lhs.Valid() && rhs.Valid() && rhs.Size != 0
    reads lhs, lhs.Digits, rhs, rhs.Digits
  {
    if Shorter(lhs, rhs) then lhs.Heap else Overwrites(lhs, rhs) && !released && len > 2
  }

  /** The part of `divrem` for |lhs| not known to be smaller: divide the magnitudes. */
  method DivideMagnitudes(lhs: BigInteger, rhs: BigInteger)
      returns (q: BigInteger, r: BigInteger, asserted: bool, ghost released: bool)
    requires lhs.Valid() && rhs.Valid() && lhs.Normalized() && rhs.Normalized()
    requires 0 < rhs.Len() <= lhs.Len() && !Shorter(lhs, rhs) && MayDivide(lhs, rhs)
    modifies lhs.Digits
    ensures fresh(q) && q.Valid() && fresh(q.Digits) && q.Normalized() && q.Compact() && q.Size >= 0
    ensures fresh(r) && r.Valid() && r.Normalized() && r.Compact() && r.Size >= 0
    ensures (r.Digits == lhs.Digits || fresh(r.Digits)) && q != r
    ensures Truncates(old(lhs.Magnitude()), old(rhs.Magnitude()), q.Magnitude(), r.Magnitude())
    ensures Leaves(lhs, rhs, r.Magnitude(), released)
    ensures r.Digits == lhs.Digits <==> old(Overwrites(lhs, rhs)) && !released && r.Len() > 2
    ensures lhs.Digits == rhs.Digits && lhs.Len() == rhs.Len() ==>
      q.Magnitude() == 1 && r.Size == 0 && (old(Overwrites(lhs, rhs)) && !released ==> ZeroDigits(lhs.Mag()))
    ensures asserted <==> !old(AsksForNone(lhs, rhs))
  {
    hide V, Lift, Trimmed, TopBelow, Grows, ZeroDigits, Truncates;
    ghost var va, vb := lhs.Magnitude(), rhs.Magnitude();
    MagnitudeNotNegative(lhs);
    if rhs.Len() == 1 {
      OneDigit(rhs);
      var rem;
      q, rem, asserted := DivRem1(lhs, rhs.Digits[0]);
      r := MakeBig(rem);
      DivModLaw(lhs.Magnitude(), rhs.Magnitude());
      released := false;
      NormalizedZero(r);
      if lhs.Magnitude() == rhs.Magnitude() {
        OnceExactly(rhs.Magnitude(), q.Magnitude(), r.Magnitude());
      }
    } else {
      q, r, asserted, released := XDivRem(lhs, rhs);
    }
    MagnitudeNotNegative(r);
    TruncatesMagnitudes(va, vb, q.Magnitude(), r.Magnitude());
  }

  lemma MagnitudeNotNegative(z: BigInteger)
    requires z.Valid()
    ensures z.Magnitude() >= 0
  {
    VBound(z.Mag());
  }

  lemma OneDigit(b: BigInteger)
    requires b.Valid() && b.Normalized() && b.Len() == 1
    ensures b.Magnitude() == b.Digits[0] > 0
  {
    VHead(b.Mag());
    VZero(b.Mag()[1..]);
  }

  /**
  `divrem`: truncating division. Dividing by a number that shares the dividend's block, as
  in `x / x`, gives 1 or -1 and nothing over, but may leave only zeros in the block.
   */
  method DivRem(lhs: BigInteger, rhs: BigInteger)
      returns (result: Division, asserted: bool, ghost released: bool)
    requires lhs.Valid() && rhs.Valid() && lhs.Normalized() && rhs.Normalized()
    requires MayDivide(lhs, rhs)
    modifies lhs.Digits
    ensures result.DivisionByZero? <==> rhs.Size == 0
    ensures result.Divided? ==>
      && fresh(result.Q) && result.Q.Valid() && fresh(result.Q.Digits) && result.Q.Normalized() && result.Q.Compact()
      && fresh(result.R) && result.R.Valid() && result.R.Normalized() && (lhs.Compact() ==> result.R.Compact())
      && (result.R.Digits == lhs.Digits || fresh(result.R.Digits)) && result.Q != result.R
      && Truncates(old(lhs.Value()), old(rhs.Value()), result.Q.Value(), result.R.Value())
      && Leaves(lhs, rhs, result.R.Magnitude(), released)
      && var n := result.R.Len(); (result.R.Digits == lhs.Digits <==> old(TakesBlock(lhs, rhs, n, released)))
    ensures result.Divided? && lhs.Digits == rhs.Digits && lhs.Len() == rhs.Len() ==>
      && result.Q.Value() == (if lhs.Size == rhs.Size then 1 else -1) && result.R.Size == 0
      && (old(Overwrites(lhs, rhs)) && !released ==> ZeroDigits(lhs.Mag()))
    ensures result.DivisionByZero? ==> !released && lhs.Digits[..] == old(lhs.Digits[..])
    ensures asserted <==> rhs.Size == 0 || !old(AsksForNone(lhs, rhs))
  {
    hide V, Lift, Trimmed, Truncates, TopBelow, Borrows, Grows;
    released := false;
    if rhs.Size == 0 { return DivisionByZero, true, released; }
    NormalizedZero(lhs);
    NormalizedZero(rhs);
    var shorter := ShorterThan(lhs, rhs);
    if shorter {
      var q := MakeBig(0);
      var r := new BigInteger.CopyOf(lhs);
      assert r.Mag() == lhs.Mag();
      TruncatesSmall(lhs.Value(), rhs.Value());
      return Divided(q, r), true, released;
    }
    var q, r;
    q, r, asserted, released := DivRemSigned(lhs, rhs);
    result := Divided(q, r);
  }

  /** `divrem` of magnitudes, with the signs set. */
  method DivRemSigned(lhs: BigInteger, rhs: BigInteger)
      returns (q: BigInteger, r: BigInteger, asserted: bool, ghost released: bool)
    requires lhs.Valid() && rhs.Valid() && lhs.Normalized() && rhs.Normalized()
    requires 0 < rhs.Len() <= lhs.Len() && !Shorter(lhs, rhs) && MayDivide(lhs, rhs)
    modifies lhs.Digits
    ensures fresh(q) && q.Valid() && fresh(q.Digits) && q.Normalized() && q.Compact()
    ensures fresh(r) && r.Valid() && r.Normalized() && r.Compact() && q != r
    ensures r.Digits == lhs.Digits || fresh(r.Digits)
    ensures Truncates(old(lhs.Value()), old(rhs.Value()), q.Value(), r.Value())
    ensures Leaves(lhs, rhs, r.Magnitude(), released)
    ensures r.Digits == lhs.Digits <==> old(Overwrites(lhs, rhs)) && !released && r.Len() > 2
    ensures lhs.Digits == rhs.Digits && lhs.Len() == rhs.Len() ==>
      && q.Value() == (if lhs.Size == rhs.Size then 1 else -1) && r.Size == 0
      && (old(Overwrites(lhs, rhs)) && !released ==> ZeroDigits(lhs.Mag()))
    ensures asserted <==> !old(AsksForNone(lhs, rhs))
  {
    hide V, Lift, Trimmed, Truncates, TopBelow, Borrows, Grows, ZeroDigits;
    hide Overwrites, Leaves, AsksForNone, MayDivide, Shorter, DividesLong;
    ghost var va, vb := lhs.Magnitude(), rhs.Magnitude();
    NormalizedZero(lhs);
    NormalizedZero(rhs);
    var negA, negB := lhs.Size < 0, rhs.Size < 0;
    q, r, asserted, released := DivideMagnitudes(lhs, rhs);
    ghost var quotient, rest := q.Magnitude(), r.Magnitude();
    MagnitudeNotNegative(q);
    MagnitudeNotNegative(r);
    TruncatesWithSigns(va, vb, quotient, rest, negA, negB);
    SetSigns(q, r, negA, negB);
    SameSizes(lhs.Size, rhs.Size);
    assert Leaves(lhs, rhs, rest, released);
  }

  /** Sizes of the same number of digits are equal exactly if their signs are. */
  lemma SameSizes(m: int, n: int)
    ensures Abs(m) == Abs(n) && m != 0 ==> (m == n <==> (m < 0 <==> n < 0))
  {
  }

  /** The signs that `divrem` sets. */
  method SetSigns(q: BigInteger, r: BigInteger, negA: bool, negB: bool)
    requires q.Valid() && q.Normalized() && q.Size >= 0 && r.Valid() && r.Normalized() && r.Size >= 0 && q != r
    modifies q`Size, r`Size
    ensures q.Valid() && q.Normalized() && r.Valid() && r.Normalized()
    ensures q.Value() == if negA != negB then -old(q.Magnitude()) else old(q.Magnitude())
    ensures r.Value() == if negA && old(r.Magnitude()) != 0 then -old(r.Magnitude()) else old(r.Magnitude())
    ensures r.Magnitude() == old(r.Magnitude()) && r.Len() == old(r.Len()) && q.Len() == old(q.Len())
  {
    hide V, Lift, Trimmed;
    NormalizedZero(r);
    NegateIf(q, negA != negB);
    ghost var value := q.Value();
    NegateIf(r, negA && r.Size != 0);
    assert q.Value() == value;
  }

  /** The sign of a result, set in its `Size`. */
  method NegateIf(z: BigInteger, negative: bool)
    requires z.Valid() && z.Normalized() && z.Size >= 0
    modifies z`Size
    ensures z.Valid() && z.Normalized()
    ensures z.Value() == if negative then -old(z.Magnitude()) else old(z.Magnitude())
    ensures z.Magnitude() == old(z.Magnitude()) && z.Len() == old(z.Len())
  {
    hide V, Lift, Trimmed;
    NormalizedZero(z);
    if negative { z.Size := -z.Size; }
    assert z.Mag() == old(z.Mag());
  }

  /** Operands sharing the block that a division takes have the same digits. */
  lemma SharedAreEqual(lhs: BigInteger, rhs: BigInteger)
    requires lhs.Valid() && rhs.Valid() && MayDivide(lhs, rhs)
    ensures rhs.Size != 0 && Overwrites(lhs, rhs) && lhs.Digits == rhs.Digits ==> lhs.Len() == rhs.Len()
  {
  }

  /** `divmod`: flooring division, by correcting the truncating one. */
  method DivMod(lhs: BigInteger, rhs: BigInteger)
      returns (result: Division, asserted: bool, ghost released: bool)
    requires lhs.Valid() && rhs.Valid() && lhs.Normalized() && rhs.Normalized()
    requires MayDivide(lhs, rhs)
    modifies lhs.Digits
    ensures result.DivisionByZero? <==> rhs.Size == 0
    ensures result.Divided? ==>
      && result.Q.Valid() && result.Q.Normalized() && result.R.Valid() && result.R.Normalized()
      && result.Q.Compact() && (lhs.Compact() ==> result.R.Compact())
      && Floors(old(lhs.Value()), old(rhs.Value()), result.Q.Value(), result.R.Value())
    ensures result.Divided? ==>
      && fresh(result.Q.Digits) && (result.R.Digits == lhs.Digits || fresh(result.R.Digits))
      && var n := result.R.Len(); (result.R.Digits == lhs.Digits ==> old(TakesBlock(lhs, rhs, n, released)))
    ensures released ==> old(Overwrites(lhs, rhs) && Grows(lhs, rhs))
    ensures rhs.Size == 0 || !old(Overwrites(lhs, rhs)) || released ==> lhs.Digits[..] == old(lhs.Digits[..])
    ensures lhs.Digits != rhs.Digits ==> rhs.Mag() == old(rhs.Mag())
    ensures rhs.Size != 0 ==>
      exists q, r :: Truncates(old(lhs.Value()), old(rhs.Value()), q, r) && Leaves(lhs, rhs, Abs(r), released)
    ensures rhs.Size != 0 && lhs.Digits == rhs.Digits && lhs.Len() == rhs.Len() ==>
      old(Overwrites(lhs, rhs)) && !released ==> ZeroDigits(lhs.Mag())
    ensures asserted <==> rhs.Size == 0 || !old(AsksForNone(lhs, rhs))
  {
    hide V, Lift, Trimmed, Truncates, Floors, TopBelow, Borrows, Grows, ZeroDigits;
    hide BigInteger.Compact;
    hide Overwrites, AsksForNone, MayDivide, TakesBlock;
    ghost var a, b := lhs.Value(), rhs.Value();
    NormalizedZero(rhs);
    SharedAreEqual(lhs, rhs);
    result, asserted, released := DivRem(lhs, rhs);
    if result.DivisionByZero? { return; }
    var div, mod := result.Q, result.R;
    assert Truncates(a, b, div.Value(), mod.Value());
    MagnitudeOfValue(mod);
    NormalizedZero(mod);
    assert mod.Size != 0 ==> rhs.Mag() == old(rhs.Mag());
    FloorsFromTruncates(a, b, div.Value(), mod.Value());
    var q, r := CorrectedForFloor(div, mod, rhs);
    result := Divided(q, r);
    assert Leaves(lhs, rhs, Abs(mod.Value()), released);
  }

  /** The correction of `divmod`: a remainder of the other sign gets the divisor added. */
  method CorrectedForFloor(div: BigInteger, mod: BigInteger, rhs: BigInteger)
      returns (q: BigInteger, r: BigInteger)
    requires div.Valid() && mod.Valid() && rhs.Valid() && div.Normalized() && mod.Normalized()
    requires (mod.Size < 0 && rhs.Size > 0) || (mod.Size > 0 && rhs.Size < 0) ==> rhs.Normalized()
    ensures q.Valid() && q.Normalized() && r.Valid() && r.Normalized()
    ensures (div.Compact() ==> q.Compact()) && (mod.Compact() ==> r.Compact())
    ensures if (mod.Size < 0 && rhs.Size > 0) || (mod.Size > 0 && rhs.Size < 0)
      then q.Value() == div.Value() - 1 && r.Value() == rhs.Value() + mod.Value()
        && fresh(q.Digits) && fresh(r.Digits)
      else q == div && r == mod
  {
    hide V, Lift, Trimmed;
    q, r := div, mod;
    if (mod.Size < 0 && rhs.Size > 0) || (mod.Size > 0 && rhs.Size < 0) {
      var one := MakeBig(1);
      q := Subtract(div, one);
      r := Add(rhs, mod);
    }
  }

  lemma MagnitudeOfValue(z: BigInteger)
    requires z.Valid()
    ensures Abs(z.Value()) == z.Magnitude()
  {
    hide V;
    MagnitudeBounds(z);
  }

  /** What an operator returns, or its panic. */
  datatype Outcome = Panic | Returned(Number: BigInteger)

  /** `operator/`: the quotient of the truncating division. */
  method Quotient(lhs: BigInteger, rhs: BigInteger)
      returns (outcome: Outcome, asserted: bool, ghost released: bool)
    requires lhs.Valid() && rhs.Valid() && lhs.Normalized() && rhs.Normalized()
    requires MayDivide(lhs, rhs)
    modifies lhs.Digits
    ensures outcome.Panic? <==> rhs.Size == 0
    ensures outcome.Returned? ==> outcome.Number.Valid() && outcome.Number.Normalized() && outcome.Number.Compact()
    ensures outcome.Returned? ==> fresh(outcome.Number.Digits)
    ensures outcome.Returned? ==>
      exists r :: Truncates(old(lhs.Value()), old(rhs.Value()), outcome.Number.Value(), r)
        && Leaves(lhs, rhs, Abs(r), released)
    ensures outcome.Returned? && lhs.Digits == rhs.Digits && lhs.Len() == rhs.Len() ==>
      && outcome.Number.Value() == (if lhs.Size == rhs.Size then 1 else -1)
      && (old(Overwrites(lhs, rhs)) && !released ==> ZeroDigits(lhs.Mag()))
    ensures rhs.Size == 0 || !old(Overwrites(lhs, rhs)) || released ==> lhs.Digits[..] == old(lhs.Digits[..])
    ensures asserted <==> rhs.Size == 0 || !old(AsksForNone(lhs, rhs))
  {
    hide V, Lift, Trimmed, Truncates, TopBelow, Borrows, Grows, Overwrites, AsksForNone, ZeroDigits;
    var result;
    result, asserted, released := DivRem(lhs, rhs);
    outcome := if result.Divided? then Returned(result.Q) else Panic;
    if result.Divided? {
      MagnitudeOfValue(result.R);
      assert Truncates(old(lhs.Value()), old(rhs.Value()), outcome.Number.Value(), result.R.Value());
    }
  }

  /** `operator%`: the remainder of the flooring division. */
  method Remainder(lhs: BigInteger, rhs: BigInteger)
      returns (outcome: Outcome, asserted: bool, ghost released: bool)
    requires lhs.Valid() && rhs.Valid() && lhs.Normalized() && rhs.Normalized()
    requires MayDivide(lhs, rhs)
    modifies lhs.Digits
    ensures outcome.Panic? <==> rhs.Size == 0
    ensures outcome.Returned? ==> outcome.Number.Valid() && outcome.Number.Normalized()
    ensures outcome.Returned? && lhs.Compact() ==> outcome.Number.Compact()
    ensures outcome.Returned? ==>
      && (outcome.Number.Digits == lhs.Digits || fresh(outcome.Number.Digits))
      && var n := outcome.Number.Len(); (outcome.Number.Digits == lhs.Digits ==> old(TakesBlock(lhs, rhs, n, released)))
    ensures outcome.Returned? ==>
      exists q :: Floors(old(lhs.Value()), old(rhs.Value()), q, outcome.Number.Value())
    ensures outcome.Returned? ==>
      exists q, r :: Truncates(old(lhs.Value()), old(rhs.Value()), q, r) && Leaves(lhs, rhs, Abs(r), released)
    ensures outcome.Returned? && lhs.Digits == rhs.Digits && lhs.Len() == rhs.Len() ==>
      old(Overwrites(lhs, rhs)) && !released ==> ZeroDigits(lhs.Mag())
    ensures rhs.Size == 0 || !old(Overwrites(lhs, rhs)) || released ==> lhs.Digits[..] == old(lhs.Digits[..])
    ensures asserted <==> rhs.Size == 0 || !old(AsksForNone(lhs, rhs))
  {
    hide V, Lift, Trimmed, Truncates, Floors, TopBelow, Borrows, Grows, Overwrites, AsksForNone, ZeroDigits;
    var result;
    result, asserted, released := DivMod(lhs, rhs);
    outcome := if result.Divided? then Returned(result.R) else Panic;
    if result.Divided? {
      assert Floors(old(lhs.Value()), old(rhs.Value()), result.Q.Value(), outcome.Number.Value());
    }
  }

  /** A division that trips the assertion of `ensure_digits`: 2^30 by 2^30 + 2. */
  method QuotientWithoutDigits() returns (asserted: bool)
    ensures !asserted
  {
    hide V, TopBelow;
    var a := MakeBig(BASE);
    var b := MakeBig(0x4000_0002);
    TwoDigitNumber(a, 0);
    TwoDigitNumber(b, 2);
    TopBelowExample();
    var outcome;
    ghost var released;
    outcome, asserted, released := Quotient(a, b);
  }

  lemma TwoDigitNumber(a: BigInteger, low: Digit)
    requires a.Valid() && a.Normalized() && a.Size >= 0 && a.Magnitude() == BASE + low
    ensures a.Mag() == [low, 1]
  {
    var d := [low, 1 as Digit];
    VHead(d);
    VHead(d[1..]);
    assert d[1..][1..] == [];
    TrimmedUnique(a.Mag(), d);
  }

  /** Where the two operators belong together: a == b * (a / b) + a % b exactly if `b` divides `a`
      or the signs agree. For -7 and 2 they give -3 and 1. */
  lemma OperatorsMatch(a: int, b: int, q: int, m: int)
    requires exists r :: Truncates(a, b, q, r)
    requires exists f :: Floors(a, b, f, m)
    ensures b != 0 && (b * q + m == a <==> a % b == 0 || SignOf(a) == SignOf(b))
    ensures a == -7 && b == 2 ==> q == -3 && m == 1
  {
    var r :| Truncates(a, b, q, r);
    var f :| Floors(a, b, f, m);
    QuotientWithOtherRemainder(a, b, q, r, f, m);
    if a == -7 && b == 2 {
      DivisionsUnique(a, b, q, r, -3, -1);
      DivisionsUnique(a, b, f, m, -4, 1);
    }
  }
}
