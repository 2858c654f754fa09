/**
Bits of integers in infinite two's complement, and the bitwise operations on the low
bits of words.
 */
module Bits {
  import opened Powers

  datatype BitOp = And | Or | Xor

  function Apply(op: BitOp, x: bool, y: bool): bool {
    match op
    case And => x && y
    case Or => x || y
    case Xor => x != y
  }

  /** Bit `i` of `x`; a negative number has ones from some position on. */
  function Bit(x: int, i: nat): bool
    decreases i
  {
    if i == 0 then x % 2 == 1 else Bit(x / 2, i - 1)
  }

  /** The operation on the low `n` bits of two words. */
  function Word(op: BitOp, x: nat, y: nat, n: nat): (z: nat)
    ensures z < Pow(2, n)
  {
    if n == 0 then 0
    else 2 * Word(op, x / 2, y / 2, n - 1) + (if Apply(op, x % 2 == 1, y % 2 == 1) then 1 else 0)
  }

  /** The word operation is the operation on each bit. */
  lemma {:induction false} WordBits(op: BitOp, x: nat, y: nat, n: nat, i: nat)
    requires i < n
    ensures Bit(Word(op, x, y, n), i) == Apply(op, Bit(x, i), Bit(y, i))
  {
    var z := Word(op, x, y, n);
    if i > 0 {
      assert z / 2 == Word(op, x / 2, y / 2, n - 1);
      WordBits(op, x / 2, y / 2, n - 1, i - 1);
    }
  }

  lemma {:induction false} WordSymmetric(op: BitOp, x: nat, y: nat, n: nat)
    ensures Word(op, x, y, n) == Word(op, y, x, n)
  {
    if n > 0 { WordSymmetric(op, x / 2, y / 2, n - 1); }
  }

  /** Operations with all zeros and with all ones. */
  lemma {:induction false} WordUnits(x: nat, n: nat)
    requires x < Pow(2, n)
    ensures Word(And, x, 0, n) == 0 && Word(And, x, Pow(2, n) - 1, n) == x
    ensures Word(Or, x, 0, n) == x && Word(Or, x, Pow(2, n) - 1, n) == Pow(2, n) - 1
    ensures Word(Xor, x, 0, n) == x && Word(Xor, x, Pow(2, n) - 1, n) == Pow(2, n) - 1 - x
  {
    if n > 0 {
      WordUnits(x / 2, n - 1);
      assert (Pow(2, n) - 1) / 2 == Pow(2, n - 1) - 1;
    }
  }

  /** A mask of low ones gives the remainder by a power of two. */
  lemma {:induction false} MaskIsRemainder(x: nat, k: nat, n: nat, p: nat)
    requires k <= n && p == Pow(2, k)
    ensures Word(And, x, p - 1, n) == x % p
  {
    if k == 0 {
      AndZero(x, n);
    } else {
      var h := Pow(2, k - 1);
      MaskIsRemainder(x / 2, k - 1, n - 1, h);
      hide Pow, Word;
      MaskStep(x, h, n);
    }
  }

  lemma MaskStep(x: nat, p: nat, n: nat)
    requires p > 0 && n > 0 && Word(And, x / 2, p - 1, n - 1) == (x / 2) % p
    ensures Word(And, x, 2 * p - 1, n) == x % (2 * p)
  {
    assert (2 * p - 1) / 2 == p - 1 && (2 * p - 1) % 2 == 1;
    LowBitOfRemainder(x, p);
  }

  lemma {:induction false} AndZero(x: nat, n: nat)
    ensures Word(And, x, 0, n) == 0
  {
    if n > 0 { AndZero(x / 2, n - 1); }
  }

  lemma LowBitOfRemainder(x: nat, p: nat)
    requires p > 0
    ensures x % (2 * p) == 2 * ((x / 2) % p) + x % 2
  {
    var q, r := (x / 2) / p, (x / 2) % p;
    DivModLaw(x / 2, p);
    MulSwap(q, 2, p);
    DivModUnique(x, 2 * p, q, 2 * r + x % 2);
  }

  lemma {:induction false} BitOfUnits(i: nat)
    ensures Bit(0, i) == false && Bit(-1, i) == true
  {
    if i > 0 { BitOfUnits(i - 1); }
  }

  /** `y` moved up by `w` bits, by doubling. */
  function Shl(y: int, w: nat): int
    decreases w
  {
    if w == 0 then y else 2 * Shl(y, w - 1)
  }

  lemma {:induction false} ShlIsProduct(y: int, w: nat)
    ensures Shl(y, w) == y * Pow(2, w)
  {
    if w > 0 { ShlIsProduct(y, w - 1); }
  }

  /** `|` of words without common bits is their sum. */
  lemma {:induction false} OrDisjoint(x: nat, y: nat, s: nat, n: nat)
    requires y < Pow(2, s) && 0 <= Shl(x, s) && Shl(x, s) + y < Pow(2, n)
    ensures Word(Or, Shl(x, s), y, n) == Shl(x, s) + y
  {
    if n == 0 {
    } else if s == 0 {
      WordUnits(x, n);
    } else {
      ShlNat(x, s - 1);
      assert Shl(x, s) / 2 == Shl(x, s - 1) && Shl(x, s) % 2 == 0;
      OrDisjoint(x, y / 2, s - 1, n - 1);
    }
  }

  lemma {:induction false} ShlNat(x: nat, s: nat)
    ensures Shl(x, s) >= 0
  {
    if s > 0 { ShlNat(x, s - 1); }
  }

  /** The bits of `x + y * 2^w` for x of w bits: those of x, then those of y. */
  lemma {:induction false} BitJoin(x: nat, y: int, w: nat, i: nat)
    requires x < Pow(2, w)
    ensures Bit(x + Shl(y, w), i) == if i < w then Bit(x, i) else Bit(y, i - w)
  {
    if w > 0 {
      assert (x + Shl(y, w)) / 2 == x / 2 + Shl(y, w - 1);
      if i > 0 { BitJoin(x / 2, y, w - 1, i - 1); }
    }
  }

  /** An integer is determined by its bits. */
  lemma {:induction false} BitsDetermine(x: int, y: int)
    requires forall i: nat :: Bit(x, i) == Bit(y, i)
    ensures x == y
    decreases (if x < 0 then -x else x) + (if y < 0 then -y else y)
  {
    assert Bit(x, 0) == Bit(y, 0);
    if (x == 0 || x == -1) && (y == 0 || y == -1) {
    } else {
      forall i: nat ensures Bit(x / 2, i) == Bit(y / 2, i) {
        assert Bit(x, i + 1) == Bit(y, i + 1);
      }
      BitsDetermine(x / 2, y / 2);
    }
  }

  /** `msb`: the index of the most significant set bit. */
  function Msb(x: nat): (r: nat)
    requires x > 0
    ensures Pow(2, r) <= x < Pow(2, r + 1)
  {
    if x == 1 then 0 else Msb(x / 2) + 1
  }
}
