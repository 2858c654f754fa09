/**
The big integer structure: sign-magnitude, with the sign kept in `Size`
(`include/lstd/big_integer.h`, lines 62-324 and 1227-1243).
 */
module BigIntegers {
  import opened Powers
  import opened IntegerDivision
  import opened BigDigits

  /**
  `Digits` is what `get_digits` returns: a two-digit buffer inside the structure
  when `Heap` is false, and a separately allocated block when it is true. A block may
  be longer than the `Allocated` digits asked for: the rest is what the allocator can
  add to it in place.
   */
  class BigInteger {
    var Size: int
    var Heap: bool
    var Allocated: nat
    var Digits: array<Digit>

    ghost predicate Valid()
      reads this
    {
      && Len() <= Allocated <= Digits.Length
      && 2 <= Allocated
      && (!Heap ==> Digits.Length == 2)
    }

    /** The number of digits in use. */
    function Len(): nat
      reads this
    {
      Abs(Size)
    }

    /** The digits in use. */
    ghost function Mag(): seq<Digit>
      requires Valid()
      reads this, Digits
    {
      Digits[..Len()]
    }

    ghost function Magnitude(): int
      requires Valid()
      reads this, Digits
    {
      V(Mag())
    }

    ghost function Value(): int
      requires Valid()
      reads this, Digits
    {
      if Size < 0 then -Magnitude() else Magnitude()
    }

    ghost predicate Normalized()
      requires Valid()
      reads this, Digits
    {
      Trimmed(Mag())
    }

    /** As small as it can be: no allocated block for what fits in the inline buffer. */
    ghost predicate Compact()
      reads this
    {
      Heap ==> Len() > 2
    }

    /** `make_big_integer` for at least one digit, as `ensure_digits` asserts: room for `n`, all zero. */
    constructor WithRoom(n: nat)
      requires n > 0
      ensures Valid() && Size == 0 && fresh(Digits)
      ensures Allocated == (if n > 2 then n else 2) && Heap == (n > 2)
      ensures forall k :: 0 <= k < Digits.Length ==> Digits[k] == 0
    {
      var spare := Spare();
      Size := 0;
      Heap := n > 2;
      Allocated := if n > 2 then n else 2;
      Digits := new Digit[if n > 2 then n + spare else 2](_ => 0);
    }

    /** The structure as it is initialized, which `make_big_integer(0)` leaves as it is. */
    constructor Inline()
      ensures Valid() && Size == 0 && fresh(Digits) && !Heap
      ensures forall k :: 0 <= k < Digits.Length ==> Digits[k] == 0
    {
      Size, Heap, Allocated := 0, false, 2;
      Digits := new Digit[2](_ => 0);
    }

    /** Copying the structure copies the small buffer but shares the allocated one. */
    constructor CopyOf(b: BigInteger)
      requires b.Valid()
      ensures Valid() && Size == b.Size && Heap == b.Heap
      ensures if Heap then Digits == b.Digits else fresh(Digits)
      ensures Allocated == b.Allocated
      ensures Digits.Length == b.Digits.Length && Digits[..] == b.Digits[..]
    {
      Size := b.Size;
      Heap := b.Heap;
      Allocated := b.Allocated;
      if b.Heap {
        Digits := b.Digits;
      } else {
        var d := b.Digits;
        Digits := new Digit[2](i requires 0 <= i < 2 && d.Length == 2 reads d => d[i]);
      }
    }

    /**
    `ensure_digits`: at least `n` digits of room, the new ones zero. A block that is too
    short goes to `realloc`, which lengthens it in place if the allocator can, and
    otherwise moves it and releases the old block.
     */
    method EnsureDigits(n: nat) returns (ghost released: bool)
      requires Valid() && n > 0
      modifies this, Digits
      ensures Valid() && Size == old(Size) && n <= Allocated
      ensures n <= old(Allocated) ==>
        !released && Digits == old(Digits) && Heap == old(Heap) && Allocated == old(Allocated)
      ensures n > old(Allocated) ==> Heap && Allocated == n
      ensures released ==> old(Heap) && n > old(Allocated)
      ensures if released || (!old(Heap) && n > old(Allocated)) then fresh(Digits) else Digits == old(Digits)
      ensures old(Digits)[..old(Allocated)] == old(Digits[..Allocated]) == Digits[..old(Allocated)]
      ensures fresh(Digits) ==> old(Digits)[..] == old(Digits[..])
      ensures forall k :: old(Allocated) <= k < n ==> Digits[k] == 0
      ensures forall k :: n <= k < Digits.Length && Digits == old(Digits) ==> Digits[k] == old(Digits[k])
      ensures Mag() == old(Mag())
    {
      released := false;
      if n <= Allocated { return; }
      ghost var mag := Mag();
      var d, had := Digits, Allocated;
      var grant: bool := *;
      if Heap && n <= d.Length && grant {
        ClearRoom(d, had, n);
      } else {
        var spare := Spare();
        released := Heap;
        Digits := new Digit[n + spare](i reads d => if 0 <= i < had && i < d.Length then d[i] else 0);
      }
      Heap, Allocated := true, n;
      assert Digits[..had] == d[..had];
      assert Digits[..Len()] == Digits[..had][..Len()] == d[..had][..Len()] == mag;
    }

    /** `maybe_small`: back to the small buffer when two digits are enough. */
    method MaybeSmall()
      requires Valid()
      modifies this
      ensures Valid() && Size == old(Size)
      ensures Heap == (old(Heap) && Len() > 2)
      ensures if Heap == old(Heap) then Digits == old(Digits) && Allocated == old(Allocated) else fresh(Digits)
      ensures Mag() == old(Mag())
    {
      if Heap && Len() <= 2 {
        var d := Digits;
        Digits := new Digit[2](i requires 0 <= i < 2 <= d.Length reads d => d[i]);
        Heap, Allocated := false, 2;
        assert Digits[..2] == d[..2];
        assert Digits[..Len()] == Digits[..2][..Len()];
      }
    }

    /** `normalize`: drop the zero digits at the top. */
    method Normalize()
      requires Valid()
      modifies this
      ensures Valid() && Normalized() && Compact()
      ensures Heap == (old(Heap) && Len() > 2)
      ensures if Heap == old(Heap) then Digits == old(Digits) && Allocated == old(Allocated) else fresh(Digits)
      ensures Len() <= old(Len()) && Mag() == old(Mag())[..Len()]
      ensures forall k :: Len() <= k < old(Len()) ==> old(Mag())[k] == 0
      ensures Magnitude() == old(Magnitude()) && Value() == old(Value())
      ensures Size < 0 ==> old(Size) < 0
      ensures Size > 0 ==> old(Size) > 0
      ensures Size == 0 <==> Value() == 0
    {
      ghost var mag := Mag();
      var j := Len();
      var i := j;
      while i > 0 && Digits[i - 1] == 0
        invariant 0 <= i <= j
        invariant forall k :: i <= k < j ==> mag[k] == 0
      {
        i := i - 1;
      }
      if i != j {
        Size := if Size < 0 then -i else i;
      }
      assert Mag() == mag[..i];
      VTrim(mag, i);
      MaybeSmall();
      if i > 0 { VPositive(mag[..i], i - 1); }
    }
  }

  /** How much longer than asked for a block is, as the allocator pleases. */
  method Spare() returns (n: nat)
  {
    var any: int := *;
    n := if any < 0 then 0 else any;
  }

  /** `memset0` of the digits from `from` up to `to`. */
  method ClearRoom(d: array<Digit>, from: nat, to: nat)
    requires from <= to <= d.Length
    modifies d
    ensures d[..from] == old(d[..from])
    ensures forall k :: from <= k < to ==> d[k] == 0
    ensures forall k :: to <= k < d.Length ==> d[k] == old(d[k])
  {
    forall k | from <= k < to { d[k] := 0; }
  }

  /**
  `make_big_integer` for a number of digits that may be zero. The answer says whether the
  assertion of `ensure_digits` holds; without assertions the inline buffer is left.
   */
  method MakeRoom(n: nat) returns (b: BigInteger, asserted: bool)
    ensures asserted <==> n > 0
    ensures fresh(b) && b.Valid() && b.Size == 0 && fresh(b.Digits)
    ensures b.Allocated == (if n > 2 then n else 2) && b.Heap == (n > 2)
    ensures forall k :: 0 <= k < b.Digits.Length ==> b.Digits[k] == 0
  {
    asserted := n > 0;
    if asserted {
      b := new BigInteger.WithRoom(n);
    } else {
      b := new BigInteger.Inline();
    }
  }

  /** The digits that `assign` asks for, from the number of bits of the value. */
  function DigitsAsked(bits: nat): nat {
    bits / BASE + if bits % BASE != 0 then 1 else 0
  }

  /** The digits that its loop writes. */
  function DigitsWritten(v: nat): nat {
    if v < BASE then 1 else 1 + DigitsWritten(v / BASE)
  }

  /** `assign` divides by BASE instead of by the bits of a digit, so it asks for one digit for every
      integer of up to 128 bits. The two digits that are there are enough exactly below 2^60. */
  lemma RoomOfMakeBig(v: nat, bits: nat)
    requires 0 < bits <= 128
    ensures DigitsAsked(bits) == 1
    ensures DigitsWritten(v) <= 2 <==> v < 0x1000_0000_0000_0000
  {
    assert v / BASE < BASE <==> v < BASE * BASE;
  }

  lemma AssignStart(rest: nat)
    ensures V([]) + Lift(rest, 0) == rest
  {
  }

  /** One more digit taken from the low end of what is left. */
  lemma AssignStep(d: seq<Digit>, rest: nat)
    ensures V(d + [rest % BASE]) + Lift(rest / BASE, |d| + 1) == V(d) + Lift(rest, |d|)
  {
    hide V, Lift;
    VPush(d, rest % BASE);
    LiftAdd(rest % BASE, BASE * (rest / BASE), |d|);
    LiftBase(rest / BASE, |d|);
  }

  /** `make_big` for magnitudes of at most two digits: the small buffer holds them. */
  method MakeBig(v: int) returns (b: BigInteger)
    requires Abs(v) < 0x1000_0000_0000_0000
    ensures fresh(b) && b.Valid() && fresh(b.Digits) && b.Normalized()
    ensures b.Value() == v && !b.Heap && SignOf(b.Size) == SignOf(v)
  {
    hide V, Lift, Trimmed;
    b := new BigInteger.WithRoom(1);
    var rest: int := Abs(v);
    var size := 0;
    AssignStart(rest);
    assert b.Digits[..0] == [];
    while true
      invariant 0 <= size <= 1
      invariant b.Valid() && b.Size == 0 && fresh(b.Digits) && !b.Heap
      invariant 0 <= rest && V(b.Digits[..size]) + Lift(rest, size) == Abs(v)
      invariant if size == 0 then rest == Abs(v) else 0 < rest < BASE
      decreases 2 - size
    {
      AssignStep(b.Digits[..size], rest);
      ghost var next := b.Digits[..size] + [rest % BASE];
      b.Digits[size] := rest % BASE;
      assert b.Digits[..size + 1] == next;
      rest := rest / BASE;
      size := size + 1;
      if rest == 0 { break; }
    }
    LiftZero(size);
    b.Size := if v < 0 then -size else size;
    assert b.Mag() == b.Digits[..size];
    b.Normalize();
  }

  /** The conversion to `s32`. */
  function ToS32(x: int): (r: int)
    ensures -HALF32 <= r < HALF32 && (-HALF32 <= x < HALF32 ==> r == x)
  {
    if x % TWO32 < HALF32 then x % TWO32 else x % TWO32 - TWO32
  }

  const HALF32: int := 0x8000_0000

  /** The answer of `compare`, which depends on the sizes alone. */
  function Answer(sizea: int, sizeb: int): (r: int)
    ensures r == 0 <==> sizea == 0 && ToS32(sizeb) == 0
    ensures sizea == sizeb ==> r == SignOf(sizea)
  {
    if ToS32(sizea - sizeb) != 0 then ToS32(sizea - sizeb) else SignOf(sizea)
  }

  /**
  Where the order that `compare` answers is the right one. For equal sizes: both zero, or the
  first magnitude is the larger one. For different sizes: the low 32 bits of their difference,
  read as a signed number, have its sign; when they are zero, the first number has it.
   */
  ghost predicate OrdersRight(a: BigInteger, b: BigInteger)
    requires a.Valid() && b.Valid()
    reads a, a.Digits, b, b.Digits
  {
    var d := a.Size - b.Size;
    if d == 0 then a.Size == 0 || a.Magnitude() > b.Magnitude()
    else SizesOrder(a.Size, d)
  }

  /** The low 32 bits of a difference of sizes that is not zero still tell its sign. */
  predicate SizesOrder(sizea: int, d: int) {
    var t := d % TWO32;
    if t == 0 then (sizea > 0 && d > 0) || (sizea < 0 && d < 0)
    else t < HALF32 <==> d > 0
  }

  /** They do for every difference below 2^31. */
  lemma SizesOrderWhenClose(sizea: int, d: int)
    requires d != 0 && -HALF32 <= d < HALF32
    ensures SizesOrder(sizea, d)
  {
    DivModUnique(d, TWO32, if d < 0 then -1 else 0, if d < 0 then d + TWO32 else d);
  }

  /** Sizes 2^32 - 1 digits apart are ordered the wrong way round. */
  lemma SizesOrderFails()
    ensures !SizesOrder(TWO32, TWO32 - 1)
  {
    DivModUnique(TWO32 - 1, TWO32, 0, TWO32 - 1);
  }

  /** The sign that is answered for different sizes is the sign of their difference exactly then. */
  lemma AnswerForSizes(sizea: int, sizeb: int)
    requires sizea != sizeb
    ensures SignOf(Answer(sizea, sizeb)) == SignOf(sizea - sizeb) <==> SizesOrder(sizea, sizea - sizeb)
  {
    assert 0 <= (sizea - sizeb) % TWO32 < TWO32;
  }

  /**
  `compare` orders by `Size`; for equal sizes it looks for a differing digit but
  answers with the sign alone. So it never calls two equal nonzero numbers equal.
   */
  method Compare(a: BigInteger, b: BigInteger) returns (r: int)
    requires a.Valid() && b.Valid()
    ensures r == Answer(a.Size, b.Size)
    ensures r == 0 <==> a.Size == 0 && ToS32(b.Size) == 0
    ensures a.Normalized() && b.Normalized() ==>
      (SignOf(r) == SignOf(a.Value() - b.Value()) <==> OrdersRight(a, b))
  {
    hide V, ToS32, Trimmed, OrdersRight;
    var sign := ToS32(a.Size - b.Size);
    if a.Normalized() && b.Normalized() { AnsweredOrder(a, b); }
    if sign == 0 {
      if a.Size == 0 { return 0; }
      var i := a.Len();
      var diff: int := 0;
      while i > 0
        invariant 0 <= i <= a.Len()
      {
        i := i - 1;
        var db := DigitOrJunk(b.Digits, i);
        diff := a.Digits[i] - db;
        if diff != 0 { break; }
      }
      sign := if a.Size < 0 then -1 else 1;
    }
    return sign;
  }

  lemma AnsweredOrder(a: BigInteger, b: BigInteger)
    requires a.Valid() && b.Valid() && a.Normalized() && b.Normalized()
    ensures SignOf(Answer(a.Size, b.Size)) == SignOf(a.Value() - b.Value()) <==> OrdersRight(a, b)
  {
    hide V, Answer, SizesOrder, Trimmed;
    if a.Size != b.Size { AnswerForSizes(a.Size, b.Size); }
    CompareBySize(a, b);
    MagnitudeBounds(a);
    MagnitudeBounds(b);
  }

  /** A digit, or whatever memory holds behind the buffer. */
  method DigitOrJunk(d: array<Digit>, i: nat) returns (x: int)
    ensures i < d.Length ==> x == d[i]
  {
    if i < d.Length { x := d[i]; } else { x := *; }
  }

  /**
  `operator==` is `compare(lhs, rhs) == 0`: it answers true when the first number is zero and
  the size of the second a multiple of 2^32, and for no other numbers, equal or not.
   */
  method AreEqual(a: BigInteger, b: BigInteger) returns (same: bool)
    requires a.Valid() && b.Valid()
    ensures same <==> a.Size == 0 && ToS32(b.Size) == 0
  {
    var order := Compare(a, b);
    same := order == 0;
  }

  /** Equal numbers other than zero are not found equal, and `compare` answers with their sign. */
  method EqualNumbersDiffer(v: int) returns (order: int, same: bool)
    requires v != 0 && Abs(v) < 0x1000_0000_0000_0000
    ensures order != 0 && SignOf(order) == SignOf(v) && !same
  {
    hide V;
    var a := MakeBig(v);
    var b := MakeBig(v);
    CompareBySize(a, b);
    order := Compare(a, b);
    same := order == 0;
  }

  /** A normalized magnitude with fewer digits is smaller. */
  lemma ShorterIsSmaller(a: BigInteger, b: BigInteger)
    requires a.Valid() && b.Valid() && a.Normalized() && b.Normalized()
    ensures a.Len() < b.Len() ==> a.Magnitude() < b.Magnitude()
    ensures a.Len() > b.Len() ==> a.Magnitude() > b.Magnitude()
  {
    MagnitudeBounds(a);
    MagnitudeBounds(b);
    if a.Len() < b.Len() {
      PMonotone(a.Len(), b.Len() - 1);
    } else if b.Len() < a.Len() {
      PMonotone(b.Len(), a.Len() - 1);
    }
  }

  /** Normalized numbers of different sizes are ordered by their sizes. */
  lemma CompareBySize(a: BigInteger, b: BigInteger)
    requires a.Valid() && b.Valid() && a.Normalized() && b.Normalized()
    ensures a.Size < b.Size ==> a.Value() < b.Value()
    ensures a.Size > b.Size ==> a.Value() > b.Value()
  {
    ShorterIsSmaller(a, b);
    MagnitudeBounds(a);
    MagnitudeBounds(b);
  }

  /** A normalized number of n digits lies in [BASE^(n-1), BASE^n). */
  lemma MagnitudeBounds(a: BigInteger)
    requires a.Valid()
    ensures 0 <= a.Magnitude() < P(a.Len())
    ensures a.Normalized() && a.Len() > 0 ==> 0 < P(a.Len() - 1) <= a.Magnitude()
    ensures a.Normalized() ==> (a.Magnitude() == 0 <==> a.Size == 0)
  {
    VBound(a.Mag());
    if a.Len() > 0 && a.Normalized() { VPositive(a.Mag(), a.Len() - 1); }
  }
}
