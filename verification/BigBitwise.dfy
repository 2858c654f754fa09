/**
Bitwise operations on sign-magnitude integers, as if on two's complement
(`include/lstd/big_integer.h`, lines 942-1060).
 */
module BigBitwise {
  import opened Powers
  import opened BigDigits
  import opened BigIntegers
  import opened BigAddSub
  import opened BigShift
  import opened Bits

  /** A digit vector read in two's complement; `neg` says what is above the top digit. */
  ghost function Signed(s: seq<Digit>, neg: bool): int {
    V(s) - (if neg then P(|s|) else 0)
  }

  /** The digit above the top of such a vector. */
  function Extension(neg: bool): Digit {
    if neg then MASK else 0
  }

  function DigitOp(op: BitOp, x: Digit, y: Digit): (z: Digit) {
    Pow2Digit();
    Word(op, x, y, SHIFT)
  }

  lemma DigitOpUnits(x: Digit)
    ensures DigitOp(And, x, 0) == 0 && DigitOp(And, x, MASK) == x
    ensures DigitOp(Or, x, 0) == x && DigitOp(Or, x, MASK) == MASK
    ensures DigitOp(Xor, x, 0) == x && DigitOp(Xor, x, MASK) == MASK - x
  {
    hide Word, Pow;
    Pow2Digit();
    WordUnits(x, SHIFT);
  }

  lemma ShlDigit(y: int)
    ensures Shl(y, SHIFT) == BASE * y
  {
    ShlTwice(y, 10, 10);
    ShlTwice(y, 20, 10);
    ShlTen(y);
    ShlTen(Shl(y, 10));
    ShlTen(Shl(y, 20));
  }

  lemma ShlTen(y: int)
    ensures Shl(y, 10) == 1024 * y
  {
    assert Shl(y, 5) == 2 * Shl(y, 4) == 4 * Shl(y, 3) == 8 * Shl(y, 2) == 16 * Shl(y, 1) == 32 * y;
    assert Shl(y, 10) == 2 * Shl(y, 9) == 4 * Shl(y, 8) == 8 * Shl(y, 7) == 16 * Shl(y, 6) == 32 * Shl(y, 5);
  }

  lemma {:induction false} ShlTwice(y: int, m: nat, n: nat)
    ensures Shl(Shl(y, m), n) == Shl(y, m + n)
  {
    if n > 0 { ShlTwice(y, m, n - 1); }
  }

  /** The lowest digit of a two's complement vector, and the vector above it. */
  lemma SignedHead(s: seq<Digit>, neg: bool)
    requires |s| > 0
    ensures Signed(s, neg) == s[0] + Shl(Signed(s[1..], neg), SHIFT)
  {
    hide V, Shl;
    VHead(s);
    ShlDigit(Signed(s[1..], neg));
  }

  /**
  Digit by digit is bit by bit: when every digit of `z`, and the extension above it, is
  the operation on those of `s` and `t`, the same is true of every bit of the numbers.
   */
  lemma {:induction false} SignedBits(op: BitOp, s: seq<Digit>, ns: bool, t: seq<Digit>, nt: bool,
                                      z: seq<Digit>, nz: bool, i: nat)
    requires |s| == |t| == |z| && nz == Apply(op, ns, nt)
    requires forall k :: 0 <= k < |z| ==> z[k] == DigitOp(op, s[k], t[k])
    ensures Bit(Signed(z, nz), i) == Apply(op, Bit(Signed(s, ns), i), Bit(Signed(t, nt), i))
  {
    hide V, Lift, Word, Bit, Shl;
    if |z| == 0 {
      SignedEmpty(s, ns);
      SignedEmpty(t, nt);
      SignedEmpty(z, nz);
      BitOfUnits(i);
    } else {
      Pow2Digit();
      SignedHead(s, ns);
      SignedHead(t, nt);
      SignedHead(z, nz);
      BitJoin(s[0], Signed(s[1..], ns), SHIFT, i);
      BitJoin(t[0], Signed(t[1..], nt), SHIFT, i);
      BitJoin(z[0], Signed(z[1..], nz), SHIFT, i);
      if i < SHIFT {
        WordBits(op, s[0], t[0], SHIFT, i);
      } else {
        SignedBits(op, s[1..], ns, t[1..], nt, z[1..], nz, i - SHIFT);
      }
    }
  }

  lemma SignedEmpty(s: seq<Digit>, neg: bool)
    requires |s| == 0
    ensures Signed(s, neg) == if neg then -1 else 0
  {
  }

  /** Digits that repeat the extension can be dropped. */
  lemma {:induction false} SignedDrop(s: seq<Digit>, neg: bool, k: nat)
    requires k <= |s| && forall j :: k <= j < |s| ==> s[j] == Extension(neg)
    ensures Signed(s, neg) == Signed(s[..k], neg)
  {
    if k == |s| {
      assert s[..k] == s;
    } else {
      var n := |s| - 1;
      SignedDrop(s[..n], neg, k);
      assert s[..n][..k] == s[..k];
      LiftZero(n);
      LiftBase(1, n);
      LiftAdd(BASE, 1, n);
    }
  }

  /** `v_complement`: two's complement of m digits; a vector that is not all zero leaves no carry. */
  method VComplement(z: array<Digit>, a: array<Digit>, m: nat)
    requires m <= z.Length && m <= a.Length && V(a[..m]) > 0
    modifies z
    ensures V(z[..m]) == P(m) - old(V(a[..m]))
    ensures z[m..] == old(z[m..])
  {
    hide V, Lift, P, Word;
    ghost var s := a[..m];
    var carry := 1;
    assert z[..0] == [] && a[..0] == [] && s[..0] == [];
    ComplementStart();
    for it := 0 to m
      invariant 0 <= carry <= 1 && a[it..m] == s[it..] && z[m..] == old(z[m..])
      invariant V(z[..it]) + V(s[..it]) + Lift(carry, it) == P(it)
    {
      ghost var done := z[..it];
      DigitOpUnits(a[it]);
      assert a[it] == a[it..m][0] == s[it];
      var sum: int := carry + DigitOp(Xor, a[it], MASK);
      ComplementStep(s, it, carry, done, sum % BASE, sum / BASE);
      z[it] := sum % BASE;
      assert z[..it + 1] == done + [sum % BASE];
      if z == a { assert a[it + 1..m] == old(a[it + 1..m]); } else { assert a[it + 1..m] == a[it..m][1..]; }
      carry := sum / BASE;
    }
    assert s[..m] == s;
    ComplementDone(z[..m], s, carry);
    assert carry == 0;
  }

  lemma ComplementStart()
    ensures V([]) + V([]) + Lift(1, 0) == P(0)
  {
  }

  lemma ComplementStep(s: seq<Digit>, it: nat, carry: int, done: seq<Digit>, d: Digit, c: int)
    requires it < |s| && |done| == it
    requires V(done) + V(s[..it]) + Lift(carry, it) == P(it)
    requires carry + (MASK - s[it]) == d + BASE * c
    ensures V(done + [d]) + V(s[..it + 1]) + Lift(c, it + 1) == P(it + 1)
  {
    hide V, Lift;
    VPush(done, d);
    VPrefix(s, it);
    LiftAdd(d, BASE * c, it);
    LiftBase(c, it);
    LiftAdd(carry, MASK - s[it], it);
    LiftAdd(MASK, s[it], it);
    LiftAdd(MASK, 1, it);
    LiftBase(1, it);
  }

  lemma ComplementDone(z: seq<Digit>, s: seq<Digit>, carry: int)
    requires |z| == |s| && 0 <= carry <= 1 && V(s) > 0
    requires V(z) + V(s) + Lift(carry, |s|) == P(|s|)
    ensures carry == 0 && V(z) == P(|s|) - V(s)
  {
    VBound(z);
    LiftZero(|s|);
  }

  /** How many digits of the result can differ from its sign extension. */
  function ResultDigits(op: BitOp, sizea: nat, sizeb: nat, negB: bool): (sizez: nat)
    requires sizeb <= sizea
    ensures sizeb <= sizez <= sizea
  {
    match op
    case And => if negB then sizea else sizeb
    case Or => if negB then sizeb else sizea
    case Xor => sizea
  }

  /** Every bit of `z` is the operation on the bits of `x` and `y`. */
  ghost predicate BitwiseOf(op: BitOp, z: int, x: int, y: int) {
    forall i: nat :: Bit(z, i) == Apply(op, Bit(x, i), Bit(y, i))
  }

  lemma BitwiseSymmetric(op: BitOp, z: int, x: int, y: int)
    requires BitwiseOf(op, z, x, y)
    ensures BitwiseOf(op, z, y, x)
  {
  }

  /** There is only one number with the bits of the result. */
  lemma BitwiseUnique(op: BitOp, z: int, z': int, x: int, y: int)
    requires BitwiseOf(op, z, x, y) && BitwiseOf(op, z', x, y)
    ensures z == z'
  {
    BitsDetermine(z, z');
  }

  /** The digits the loops of `bitwise` leave are those of the operation on all bits. */
  lemma ResultBits(op: BitOp, xs: seq<Digit>, negA: bool, ys: seq<Digit>, negB: bool, zs: seq<Digit>)
    requires |ys| <= |xs| && |zs| == ResultDigits(op, |xs|, |ys|, negB)
    requires forall k :: 0 <= k < |ys| ==> zs[k] == DigitOp(op, xs[k], ys[k])
    requires forall k :: |ys| <= k < |zs| ==> zs[k] == DigitOp(op, xs[k], Extension(negB))
    ensures BitwiseOf(op, Signed(zs, Apply(op, negA, negB)), Signed(xs, negA), Signed(ys, negB))
  {
    hide Signed, Bit, DigitOp;
    var negZ := Apply(op, negA, negB);
    var yx := ys + seq(|xs| - |ys|, _ => Extension(negB));
    var zx := seq(|xs|, k requires 0 <= k < |xs| => DigitOp(op, xs[k], yx[k]));
    SignedDrop(yx, negB, |ys|);
    assert yx[..|ys|] == ys;
    forall k | |zs| <= k < |xs| ensures zx[k] == Extension(negZ) {
      DigitOpUnits(xs[k]);
    }
    SignedDrop(zx, negZ, |zs|);
    assert zx[..|zs|] == zs;
    forall i: nat ensures Bit(Signed(zs, negZ), i) == Apply(op, Bit(Signed(xs, negA), i), Bit(Signed(ys, negB), i)) {
      SignedBits(op, xs, negA, yx, negB, zx, negZ, i);
    }
  }

  /** The loops of `bitwise`: the overlap, then what is left of the longer operand. */
  method CombineDigits(op: BitOp, x: array<Digit>, sizea: nat, negA: bool, y: array<Digit>, sizeb: nat, negB: bool,
                       z: array<Digit>) returns (sizez: nat)
    requires z != x && z != y && sizeb <= sizea <= x.Length && sizeb <= y.Length && sizea <= z.Length
    requires forall k :: 0 <= k < z.Length ==> z[k] == 0
    modifies z
    ensures sizez <= sizea && forall k :: sizez <= k < z.Length ==> z[k] == 0
    ensures BitwiseOf(op, Signed(z[..sizez], Apply(op, negA, negB)), Signed(x[..sizea], negA), Signed(y[..sizeb], negB))
  {
    hide Signed, Bit, DigitOp;
    sizez := ResultDigits(op, sizea, sizeb, negB);
    for i := 0 to sizeb
      invariant forall k :: 0 <= k < i ==> z[k] == DigitOp(op, x[k], y[k])
      invariant forall k :: i <= k < z.Length ==> z[k] == 0
    {
      z[i] := DigitOp(op, x[i], y[i]);
    }
    for i := sizeb to sizez
      invariant forall k :: 0 <= k < sizeb ==> z[k] == DigitOp(op, x[k], y[k])
      invariant forall k :: sizeb <= k < i ==> z[k] == DigitOp(op, x[k], Extension(negB))
      invariant forall k :: i <= k < z.Length ==> z[k] == 0
    {
      DigitOpUnits(x[i]);
      z[i] := if op == Xor && negB then DigitOp(Xor, x[i], MASK) else x[i];
    }
    ResultBits(op, x[..sizea], negA, y[..sizeb], negB, z[..sizez]);
  }

  /** An operand as two's complement digits: its own ones, or a complemented copy. */
  method Complemented(b: BigInteger) returns (c: BigInteger)
    requires b.Valid() && b.Normalized()
    ensures c == b || (fresh(c) && fresh(c.Digits))
    ensures c.Valid() && c.Len() == b.Len()
    ensures Signed(c.Digits[..c.Len()], b.Size < 0) == b.Value()
  {
    hide V, Lift, P, Trimmed;
    c := b;
    if b.Size < 0 {
      MagnitudeBounds(b);
      c := new BigInteger.WithRoom(b.Len());
      c.Size := b.Len();
      VComplement(c.Digits, b.Digits, b.Len());
    }
  }

  /**
  `bitwise`: the operation on the infinite two's complement of both operands, for all
  combinations of signs. The result asks for no digits, against the assertion of
  `ensure_digits`, if and only if both operands are zero.
   */
  method Bitwise(lhs: BigInteger, op: BitOp, rhs: BigInteger) returns (result: BigInteger, asserted: bool)
    requires lhs.Valid() && rhs.Valid() && lhs.Normalized() && rhs.Normalized()
    ensures fresh(result) && result.Valid() && fresh(result.Digits) && result.Normalized() && result.Compact()
    ensures BitwiseOf(op, result.Value(), lhs.Value(), rhs.Value())
    ensures asserted <==> lhs.Size != 0 || rhs.Size != 0
    ensures result.Heap ==>
      result.Allocated == Max(lhs.Len(), rhs.Len()) + if Apply(op, lhs.Size < 0, rhs.Size < 0) then 1 else 0
  {
    hide V, Lift, P, Trimmed, BitwiseOf, Signed, Apply, BigInteger.Compact, BigInteger.Value, BigInteger.Normalized;
    ApplySymmetric(op, lhs.Size < 0, rhs.Size < 0);
    var a := Complemented(lhs);
    var b := Complemented(rhs);
    var negA, negB := lhs.Size < 0, rhs.Size < 0;
    if a.Len() < b.Len() {
      result, asserted := BitwiseOrdered(b, op, a, negB, negA);
      BitwiseSymmetric(op, result.Value(), rhs.Value(), lhs.Value());
    } else {
      result, asserted := BitwiseOrdered(a, op, b, negA, negB);
    }
  }

  lemma ApplySymmetric(op: BitOp, x: bool, y: bool)
    ensures Apply(op, x, y) == Apply(op, y, x)
  {
  }

  /** `bitwise` once the operands are in two's complement and the longer one is first. */
  method BitwiseOrdered(a: BigInteger, op: BitOp, b: BigInteger, negA: bool, negB: bool)
      returns (result: BigInteger, asserted: bool)
    requires a.Valid() && b.Valid() && b.Len() <= a.Len()
    requires a.Len() == 0 ==> !negA && !negB
    ensures asserted <==> a.Len() > 0
    ensures result.Heap ==> result.Allocated == a.Len() + if Apply(op, negA, negB) then 1 else 0
    ensures fresh(result) && result.Valid() && fresh(result.Digits) && result.Normalized() && result.Compact()
    ensures BitwiseOf(op, result.Value(), Signed(a.Digits[..a.Len()], negA), Signed(b.Digits[..b.Len()], negB))
  {
    hide V, Lift, P, Trimmed, BitwiseOf, Signed;
    var sizea, sizeb := a.Len(), b.Len();
    var negZ := Apply(op, negA, negB);
    result, asserted := MakeRoom(sizea + if negZ then 1 else 0);
    result.Size := sizea + if negZ then 1 else 0;
    var sizez := CombineDigits(op, a.Digits, sizea, negA, b.Digits, sizeb, negB, result.Digits);
    ghost var z := result.Digits[..sizez];
    if negZ {
      result.Size := -result.Size;
      ComplementResult(result.Digits, sizez, sizea + 1);
    } else {
      assert result.Mag()[..sizez] == z;
      VTrim(result.Mag(), sizez);
      SignedPositive(z);
    }
    result.Normalize();
  }

  /** The last step for a negative result: ones above it, then back to sign and magnitude. */
  method ComplementResult(z: array<Digit>, sizez: nat, n: nat)
    requires sizez < n <= z.Length && forall k :: sizez <= k < n ==> z[k] == 0
    modifies z
    ensures -V(z[..n]) == old(Signed(z[..sizez], true)) && V(z[..n]) > 0
  {
    hide V, Lift, P, Signed;
    ghost var low := z[..sizez];
    z[sizez] := MASK;
    assert z[..sizez + 1] == low + [MASK];
    ComplementRoom(low);
    ghost var above := z[sizez + 1..];
    VComplement(z, z, sizez + 1);
    forall k | sizez + 1 <= k < n ensures z[k] == 0 {
      assert z[k] == z[sizez + 1..][k - sizez - 1] == above[k - sizez - 1];
    }
    assert z[..n][..sizez + 1] == z[..sizez + 1];
    VTrim(z[..n], sizez + 1);
  }

  lemma SignedPositive(z: seq<Digit>)
    ensures Signed(z, false) == V(z)
  {
  }

  /** With one more digit of ones the negative result can be complemented without overflow. */
  lemma ComplementRoom(z: seq<Digit>)
    ensures V(z + [MASK]) > 0
    ensures -(P(|z| + 1) - V(z + [MASK])) == Signed(z, true)
    ensures P(|z| + 1) - V(z + [MASK]) > 0
  {
    hide V, Lift;
    VPush(z, MASK);
    VPositive(z + [MASK], |z|);
    VBound(z + [MASK]);
    LiftAdd(MASK, 1, |z|);
    LiftBase(1, |z|);
  }

  /** 0 & 0 fails the assertion. */
  method AndOfZeros() returns (asserted: bool)
    ensures !asserted
  {
    var a := MakeBig(0);
    var b := MakeBig(0);
    var result;
    result, asserted := Bitwise(a, And, b);
  }
}
