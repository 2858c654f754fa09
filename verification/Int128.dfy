/**
128-bit integers as two 64-bit words, for compilers without a native type: shifts, addition
and subtraction (`include/lstd/common.h`, lines 1299-1442).
 */
module Int128 {
  import opened Powers
  import opened Bits

  /** The content of a 64-bit word. */
  type U64 = x: int | 0 <= x < TWO64

  /** Arithmetic on `u64` wraps around. */
  function W64(x: int): (w: U64) {
    x % TWO64
  }

  /** A 64-bit word read as `s64`. */
  function AsSigned(x: U64): int {
    if x < 0x8000_0000_0000_0000 then x else x - TWO64
  }

  datatype S128 = S128(hi: U64, lo: U64)

  /** The unsigned and the signed reading of the two words. */
  function U(x: S128): int {
    x.hi * TWO64 + x.lo
  }

  function S(x: S128): int {
    AsSigned(x.hi) * TWO64 + x.lo
  }

  const TWO128: int := 0x1_0000_0000_0000_0000_0000_0000_0000_0000

  lemma UBounds(x: S128)
    ensures 0 <= U(x) < TWO128
    ensures S(x) == if U(x) < TWO128 / 2 then U(x) else U(x) - TWO128
    ensures U(x) == S(x) % TWO128
  {
  }

  // Shifts of words

  function Shl64(x: U64, s: nat): U64 {
    W64(x * Pow(2, s))
  }

  function Shr64(x: U64, s: nat): (r: U64) {
    QuotientBounds(x, Pow(2, s));
    x / Pow(2, s)
  }

  function Or64(x: U64, y: U64): U64 {
    Pow2Word();
    Word(Or, x, y, 64)
  }

  function Xor64(x: U64, y: U64): U64 {
    Pow2Word();
    Word(Xor, x, y, 64)
  }

  /** Shifting a word left: what stays, what leaves it, and that the two fit together. */
  lemma ShiftParts(x: U64, s: nat)
    requires 0 < s < 64
    ensures x * Pow(2, s) == Shr64(x, 64 - s) * TWO64 + Shl64(x, s)
    ensures 0 <= Shr64(x, 64 - s) < Pow(2, s)
    ensures Shl64(x, s) == (x % Pow(2, 64 - s)) * Pow(2, s)
    ensures 0 <= x % Pow(2, 64 - s) && Shl64(x, s) + Pow(2, s) <= TWO64
  {
    hide Pow;
    var p, q := Pow(2, s), Pow(2, 64 - s);
    Pow2Word();
    PowAdd(2, s, 64 - s);
    var a, b := x / q, x % q;
    DivModLaw(x, q);
    PartsOfProduct(x, p, q, a, b);
    DivModUnique(x * p, TWO64, a, b * p);
  }

  lemma PartsOfProduct(x: int, p: int, q: int, a: int, b: int)
    requires 0 < p && 0 < q && p * q == TWO64
    requires 0 <= x < TWO64 && x == a * q + b && 0 <= b < q
    ensures x * p == a * TWO64 + b * p && 0 <= b * p && b * p + p <= TWO64
    ensures 0 <= a < p
  {
    Expand(a, q, b, p);
    MulMono(b + 1, q, p);
    MulMono(0, b, p);
    if a >= p { MulMono(p, a, q); }
    if a < 0 { MulMono(a, -1, q); }
  }

  lemma Expand(a: int, q: int, b: int, p: int)
    ensures (a * q + b) * p == a * (p * q) + b * p
    ensures (b + 1) * p == b * p + p
  {
  }

  lemma OrParts(x: U64, y: U64, s: nat)
    requires 0 < s < 64 && y < Pow(2, s)
    ensures Or64(Shl64(x, s), y) == Shl64(x, s) + y
    ensures Or64(y, Shl64(x, s)) == Shl64(x, s) + y
  {
    hide Pow, Word;
    ShiftParts(x, s);
    Pow2Word();
    var b := x % Pow(2, 64 - s);
    ShlIsProduct(b, s);
    OrDisjoint(b, y, s, 64);
    WordSymmetric(Or, Shl64(x, s), y, 64);
  }

  // 128-bit shifts, addition and subtraction

  function Sll(u: S128, shamt: nat): S128 {
    if shamt == 0 then u
    else if shamt < 64 then S128(Or64(Shl64(u.hi, shamt), Shr64(u.lo, 64 - shamt)), Shl64(u.lo, shamt))
    else S128(Shl64(u.lo, shamt - 64), 0)
  }

  function Srl(u: S128, shamt: nat): S128 {
    if shamt == 0 then u
    else if shamt < 64 then S128(Shr64(u.hi, shamt), Or64(Shr64(u.lo, shamt), Shl64(u.hi, 64 - shamt)))
    else S128(0, Shr64(u.hi, shamt - 64))
  }

  /** `(s64)x >> shamt`: the sign moves in from above. */
  function Sar64(x: U64, shamt: nat): U64 {
    W64(AsSigned(x) / Pow(2, shamt))
  }

  function Sra(u: S128, shamt: nat): S128 {
    if shamt == 0 then u
    else if shamt < 64 then S128(Sar64(u.hi, shamt), Or64(Shr64(u.lo, shamt), Shl64(u.hi, 64 - shamt)))
    else S128(Sar64(u.hi, 63), Sar64(u.hi, shamt - 64))
  }

  function Add128(u: S128, v: S128): S128 {
    var lo := W64(u.lo + v.lo);
    S128(W64(u.hi + v.hi + (if lo < u.lo then 1 else 0)), lo)
  }

  function Sub128(u: S128, v: S128): S128 {
    var lo := W64(u.lo as int - v.lo as int);
    S128(W64(u.hi as int - v.hi as int - (if lo > u.lo then 1 else 0)), lo)
  }

  function Xor128(u: S128, v: S128): S128 {
    S128(Xor64(u.hi, v.hi), Xor64(u.lo, v.lo))
  }

  lemma AddIsExact(u: S128, v: S128)
    ensures U(Add128(u, v)) == (U(u) + U(v)) % TWO128
  {
    var low := u.lo as int + v.lo as int;
    var carry := if low < TWO64 then 0 else 1;
    DivModUnique(low, TWO64, carry, low - carry * TWO64);
    var high := u.hi as int + v.hi as int + carry;
    var out := if high < TWO64 then 0 else 1;
    DivModUnique(high, TWO64, out, high - out * TWO64);
    DivModUnique(U(u) + U(v), TWO128, out, U(Add128(u, v)));
  }

  lemma SubIsExact(u: S128, v: S128)
    ensures U(Sub128(u, v)) == (U(u) - U(v)) % TWO128
  {
    var low := u.lo as int - v.lo as int;
    var borrow := if low < 0 then 1 else 0;
    DivModUnique(low, TWO64, -borrow, low + borrow * TWO64);
    var high := u.hi as int - v.hi as int - borrow;
    var out := if high < 0 then 1 else 0;
    DivModUnique(high, TWO64, -out, high + out * TWO64);
    DivModUnique(U(u) - U(v), TWO128, -out, U(Sub128(u, v)));
  }

  lemma SllIsProduct(u: S128, n: nat)
    requires n < 128
    ensures U(Sll(u, n)) == (U(u) * Pow(2, n)) % TWO128
  {
    hide Pow, Or64, Shl64, Shr64;
    var p := Pow(2, n);
    Pow2Word();
    if n == 0 {
      Pow2Small();
      assert U(u) * p == U(u);
      UBounds(u);
    } else if n < 64 {
      ShiftParts(u.hi, n);
      ShiftParts(u.lo, n);
      OrParts(u.hi, Shr64(u.lo, 64 - n), n);
      TwoWords(u.hi, u.lo, p);
      DivModUnique(U(u) * p, TWO128, Shr64(u.hi, 64 - n), U(Sll(u, n)));
    } else {
      PowAdd(2, n - 64, 64);
      SllHigh(u, n - 64);
    }
  }

  lemma TwoWords(hi: int, lo: int, p: int)
    ensures (hi * TWO64 + lo) * p == (hi * p) * TWO64 + lo * p
  {
  }

  /** A shift by 64 and more drops the high word. */
  lemma SllHigh(u: S128, s: nat)
    ensures U(S128(Shl64(u.lo, s), 0)) == (U(u) * (Pow(2, s) * TWO64)) % TWO128
  {
    hide Pow;
    var p := Pow(2, s);
    var w := u.lo * p;
    HighWordDrops(u.hi, u.lo, p, w);
    LowWordMoves(u.hi * p, w);
  }

  lemma LowWordMoves(h: int, w: int)
    ensures (h * TWO128 + w * TWO64) % TWO128 == (w % TWO64) * TWO64
  {
    var k, r := w / TWO64, w % TWO64;
    DivModUnique(h * TWO128 + w * TWO64, TWO128, h + k, r * TWO64);
  }

  lemma HighWordDrops(hi: int, lo: int, p: int, w: int)
    requires w == lo * p
    ensures (hi * TWO64 + lo) * (p * TWO64)
      == (hi * p) * TWO128 + w * TWO64
  {
  }

  lemma SrlIsQuotient(u: S128, n: nat)
    requires n < 128
    ensures U(Srl(u, n)) == U(u) / Pow(2, n)
  {
    hide Pow, Or64, Shl64, Shr64;
    var p := Pow(2, n);
    Pow2Word();
    if n == 0 {
      Pow2Small();
      DivModUnique(U(u), p, U(u), 0);
    } else if n < 64 {
      ShiftParts(u.hi, 64 - n);
      ShrParts(u.lo, n);
      OrParts(u.hi, Shr64(u.lo, n), 64 - n);
      SrlLow(u, n);
    } else {
      PowAdd(2, n - 64, 64);
      SrlHigh(u, n - 64);
    }
  }

  /** Shifting a word right leaves fewer bits. */
  lemma ShrParts(x: U64, n: nat)
    requires 0 < n < 64
    ensures 0 <= Shr64(x, n) < Pow(2, 64 - n)
    ensures x == Shr64(x, n) * Pow(2, n) + x % Pow(2, n) && 0 <= x % Pow(2, n) < Pow(2, n)
  {
    hide Pow;
    var p := Pow(2, n);
    Pow2Word();
    PowAdd(2, n, 64 - n);
    DivModLaw(x, p);
    if x / p >= Pow(2, 64 - n) { MulMono(Pow(2, 64 - n), x / p, p); }
  }

  lemma SrlLow(u: S128, n: nat)
    requires 0 < n < 64
    requires u.hi * Pow(2, 64 - n) == Shr64(u.hi, n) * TWO64 + Shl64(u.hi, 64 - n)
    requires Or64(Shr64(u.lo, n), Shl64(u.hi, 64 - n)) == Shl64(u.hi, 64 - n) + Shr64(u.lo, n)
    ensures U(Srl(u, n)) == U(u) / Pow(2, n)
  {
    hide Pow, Or64, Shl64, Shr64;
    var p, q := Pow(2, n), Pow(2, 64 - n);
    Pow2Word();
    PowAdd(2, n, 64 - n);
    ShrParts(u.lo, n);
    Regroup(u.hi, q, p, Shr64(u.lo, n), u.lo % p);
    DivModUnique(U(u), p, U(Srl(u, n)), u.lo % p);
  }

  lemma Regroup(hi: int, q: int, p: int, a: int, b: int)
    requires p * q == TWO64
    ensures hi * TWO64 + (a * p + b) == (hi * q + a) * p + b
  {
    assert (hi * q) * p == hi * (p * q);
  }

  lemma SrlHigh(u: S128, s: nat)
    ensures U(S128(0, Shr64(u.hi, s))) == U(u) / (Pow(2, s) * TWO64)
  {
    hide Pow;
    var p := Pow(2, s);
    DivModLaw(u.hi, p);
    HighQuotient(u.hi, u.lo, u.hi / p, u.hi % p, p);
  }

  lemma HighQuotient(hi: int, lo: U64, a: int, b: int, p: int)
    requires hi == a * p + b && 0 <= b < p
    ensures (hi * TWO64 + lo) / (p * TWO64) == a
  {
    assert (a * p) * TWO64 == a * (p * TWO64);
    DivModUnique(hi * TWO64 + lo, p * TWO64, a, b * TWO64 + lo);
  }

  // The arithmetic right shift

  lemma AsSignedWraps(a: int)
    requires -0x8000_0000_0000_0000 <= a < 0x8000_0000_0000_0000
    ensures AsSigned(W64(a)) == a
    ensures W64(a) == if a < 0 then a + TWO64 else a
  {
  }

  /** A quotient of a signed word is a signed word, negative exactly if the word is. */
  lemma SignedQuotient(h: int, p: int)
    requires -0x8000_0000_0000_0000 <= h < 0x8000_0000_0000_0000 && p > 0
    ensures -0x8000_0000_0000_0000 <= h / p < 0x8000_0000_0000_0000
    ensures h / p < 0 <==> h < 0
  {
    var a := h / p;
    DivModLaw(h, p);
    if a < -0x8000_0000_0000_0000 {
      MulMono(a, -0x8000_0000_0000_0001, p);
      MulMono(1, p, 0x8000_0000_0000_0001);
    }
    if a >= 0x8000_0000_0000_0000 {
      MulMono(0x8000_0000_0000_0000, a, p);
      MulMono(1, p, 0x8000_0000_0000_0000);
    }
    if a < 0 { MulMono(a, -1, p); } else { MulMono(0, a, p); }
  }

  /** The bits that leave the upper word do not depend on how the word is read. */
  lemma SameLowBits(x: U64, p: int, q: int)
    requires p > 0 && p * q == TWO64
    ensures AsSigned(x) % p == x % p
  {
    var h := AsSigned(x);
    DivModLaw(h, p);
    if h != x {
      Distribute(p, h / p, q);
      DivModUnique(x, p, h / p + q, h % p);
    }
  }

  /** `i128_sra` is the flooring quotient of the signed number. */
  lemma SraIsQuotient(u: S128, n: nat)
    requires n < 128
    ensures S(Sra(u, n)) == S(u) / Pow(2, n)
  {
    hide Pow, Or64, Shl64, Shr64;
    Pow2Word();
    if n == 0 {
      Pow2Small();
      DivModUnique(S(u), Pow(2, n), S(u), 0);
    } else if n < 64 {
      ShiftParts(u.hi, 64 - n);
      ShrParts(u.lo, n);
      OrParts(u.hi, Shr64(u.lo, n), 64 - n);
      SraLow(u, n);
    } else {
      PowAdd(2, n - 64, 64);
      SraHigh(u, n - 64);
    }
  }

  lemma SraLow(u: S128, n: nat)
    requires 0 < n < 64
    requires Shl64(u.hi, 64 - n) == (u.hi % Pow(2, n)) * Pow(2, 64 - n)
    requires Or64(Shr64(u.lo, n), Shl64(u.hi, 64 - n)) == Shl64(u.hi, 64 - n) + Shr64(u.lo, n)
    ensures S(Sra(u, n)) == S(u) / Pow(2, n)
  {
    hide Pow, Or64, Shl64, Shr64;
    var p, q, h := Pow(2, n), Pow(2, 64 - n), AsSigned(u.hi);
    Pow2Word();
    PowAdd(2, n, 64 - n);
    SameLowBits(u.hi, p, q);
    SignedQuotient(h, p);
    AsSignedWraps(h / p);
    DivModLaw(h, p);
    ShrParts(u.lo, n);
    ShiftedWords(h, h / p, h % p, p, q, Shr64(u.lo, n), u.lo % p);
    DivModUnique(S(u), p, S(Sra(u, n)), u.lo % p);
  }

  lemma ShiftedWords(h: int, a: int, b: int, p: int, q: int, c: int, d: int)
    requires p * q == TWO64 && h == a * p + b
    ensures h * TWO64 + (c * p + d)
      == (a * TWO64 + (b * q + c)) * p + d
  {
    assert (b * q) * p == b * (p * q);
    assert (a * TWO64) * p == (a * p) * TWO64;
  }

  lemma SraHigh(u: S128, s: nat)
    requires s < 64
    ensures S(S128(Sar64(u.hi, 63), Sar64(u.hi, s))) == S(u) / (Pow(2, s) * TWO64)
  {
    hide Pow;
    var h, p := AsSigned(u.hi), Pow(2, s);
    SignedQuotient(h, p);
    AsSignedWraps(h / p);
    SignOnly(u.hi);
    DivModLaw(h, p);
    HighQuotient(h, u.lo, h / p, h % p, p);
  }

  lemma SignOnly(x: U64)
    ensures AsSigned(Sar64(x, 63)) == if AsSigned(x) < 0 then -1 else 0
  {
    hide Pow;
    Pow2Word();
    PowAdd(2, 63, 1);
    Pow2Small();
    var h := AsSigned(x);
    if h < 0 {
      DivModUnique(h, Pow(2, 63), -1, h + Pow(2, 63));
      AsSignedWraps(-1);
    } else {
      DivModUnique(h, Pow(2, 63), 0, h);
    }
  }

}
