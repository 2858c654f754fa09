/**
The digit generation of the Grisu algorithm (`src/lstd/fmt/float_grisu.cpp`,
lines 79-281). The scaled value is taken as given.
 */
module GrisuDigits {
  import opened Powers
  import opened DecimalDigits

  datatype GenDigitsResult = MORE | DONE | ERROR

  datatype RoundDirection = UNKNOWN | UP | DOWN

  /** `get_round_direction`, written as in the program so that nothing overflows. */
  function GetRoundDirection(divisor: nat, remainder: nat, error: nat): (dir: RoundDirection)
    requires remainder < divisor && error < divisor && error < divisor - error
    ensures dir == DOWN <==> (remainder + error) * 2 <= divisor
    ensures dir == UP <==> dir != DOWN && remainder >= error && (remainder - error) * 2 >= divisor
    ensures dir != UNKNOWN <==> OneSided(divisor, remainder, error)
  {
    if remainder <= divisor - remainder && error * 2 <= divisor - remainder * 2 then DOWN
    else if remainder >= error && remainder - error >= divisor - (remainder - error) then UP
    else UNKNOWN
  }

  /** The error interval around the remainder lies on one side of half the divisor. */
  ghost predicate OneSided(divisor: int, remainder: int, error: int) {
    (remainder + error) * 2 <= divisor || (remainder >= error && (remainder - error) * 2 >= divisor)
  }

  /** The whole error interval around `at` lies within half of `unit` of `target`. */
  ghost predicate HalfUnit(at: int, error: int, target: int, unit: int) {
    -unit <= 2 * (at - error - target) && 2 * (at + error - target) <= unit
  }

  /** So does every real number in the interval. */
  lemma HalfUnitOfReals(at: int, error: int, target: int, unit: int, x: real)
    requires HalfUnit(at, error, target, unit)
    requires (at - error) as real <= x <= (at + error) as real
    ensures -(unit as real) <= 2.0 * (x - target as real) <= unit as real
  {
    assert (2 * (at - error - target)) as real == 2.0 * ((at - error) as real - target as real);
    assert (2 * (at + error - target)) as real == 2.0 * ((at + error) as real - target as real);
  }

  /** Soundness of the decision: the digits, or the digits plus one, are the nearest number. */
  lemma RoundingIsSound(n: int, divisor: nat, remainder: nat, error: nat)
    requires remainder < divisor && error < divisor && error < divisor - error
    ensures GetRoundDirection(divisor, remainder, error) == DOWN ==>
      HalfUnit(n * divisor + remainder, error, n * divisor, divisor)
    ensures GetRoundDirection(divisor, remainder, error) == UP ==>
      HalfUnit(n * divisor + remainder, error, (n + 1) * divisor, divisor)
  {
    Distribute(divisor, n, 1);
  }

  // Decimal digits in a character buffer

  function DigitOf(c: char): int {
    c as int - '0' as int
  }

  ghost predicate AllDigits(s: seq<char>) {
    forall i :: 0 <= i < |s| ==> IsDigit(s[i])
  }

  /** The number the characters spell; a digit one past '9' counts as ten. */
  ghost function Spelled(s: seq<char>): int {
    if |s| == 0 then 0 else 10 * Spelled(s[..|s| - 1]) + DigitOf(s[|s| - 1])
  }

  lemma SpelledPush(s: seq<char>, c: char)
    ensures Spelled(s + [c]) == 10 * Spelled(s) + DigitOf(c)
  {
    assert (s + [c])[..|s|] == s;
  }

  /** Changing one digit changes the number by that digit's weight. */
  lemma {:induction false} SpelledUpdate(s: seq<char>, k: nat, c: char)
    requires k < |s|
    ensures Spelled(s[k := c]) == Spelled(s) + (DigitOf(c) - DigitOf(s[k])) * Pow(10, |s| - 1 - k)
  {
    var n := |s| - 1;
    if k == n {
      assert s[k := c][..n] == s[..n];
    } else {
      SpelledUpdate(s[..n], k, c);
      assert s[k := c][..n] == s[..n][k := c];
      MulSwap(DigitOf(c) - DigitOf(s[k]), 10, Pow(10, n - 1 - k));
      Pow10Step(n - 1 - k);
    }
  }

  lemma {:induction false} SpelledZeros(s: seq<char>)
    requires |s| > 0 && forall i :: 1 <= i < |s| ==> s[i] == '0'
    ensures Spelled(s) == DigitOf(s[0]) * Pow(10, |s| - 1)
  {
    var n := |s| - 1;
    if n == 0 {
      assert s[..0] == [];
    } else {
      SpelledZeros(s[..n]);
      Pow10Step(n - 1);
      MulSwap(10, DigitOf(s[0]), Pow(10, n - 1));
    }
  }

  /** Moving a carry from a digit that has reached ten to the digit before it. */
  lemma CarryKeepsValue(s: seq<char>, i: nat)
    requires 0 < i < |s| && DigitOf(s[i]) == 10 && IsDigit(s[i - 1])
    ensures Spelled(s[i := '0'][i - 1 := (s[i - 1] as int + 1) as char]) == Spelled(s)
  {
    var c := (s[i - 1] as int + 1) as char;
    SpelledUpdate(s, i, '0');
    SpelledUpdate(s[i := '0'], i - 1, c);
    Pow10Step(|s| - 1 - i);
    assert (-10) * Pow(10, |s| - 1 - i) + 1 * Pow(10, |s| - i) == 0;
  }

  class GenDigitsState {
    var Buffer: array<char>
    var Size: int
    var Fixed: bool
    var Exp10: int
    var Precision: int

    constructor (buffer: array<char>, fixed: bool, exp10: int, precision: int)
      ensures Buffer == buffer && Size == 0 && Fixed == fixed && Exp10 == exp10 && Precision == precision
    {
      Buffer, Size, Fixed, Exp10, Precision := buffer, 0, fixed, exp10, precision;
    }

    ghost predicate Valid()
      reads this, Buffer
    {
      0 <= Size <= Buffer.Length && AllDigits(Buffer[..Size])
    }

    /** The digits written so far, as a number. */
    ghost function Number(): int
      requires Valid()
      reads this, Buffer
    {
      Spelled(Buffer[..Size])
    }
  }

  /** The increment of the last digit, and the carry through trailing nines. */
  method IncrementDigits(buffer: array<char>, size: nat)
    requires 0 < size <= buffer.Length && AllDigits(buffer[..size])
    modifies buffer
    ensures Spelled(buffer[..size]) == old(Spelled(buffer[..size])) + 1
    ensures forall k :: 1 <= k < size ==> IsDigit(buffer[k])
    ensures IsDigit(buffer[0]) || (DigitOf(buffer[0]) == 10 && forall k :: 1 <= k < size ==> buffer[k] == '0')
  {
    hide Spelled, Pow;
    ghost var n := Spelled(buffer[..size]);
    ghost var s := buffer[..size];
    SpelledUpdate(s, size - 1, (s[size - 1] as int + 1) as char);
    Pow10Step(0);
    buffer[size - 1] := (buffer[size - 1] as int + 1) as char;
    assert buffer[..size] == s[size - 1 := (s[size - 1] as int + 1) as char];
    var i := size - 1;
    while i > 0 && buffer[i] > '9'
      invariant 0 <= i < size
      invariant Spelled(buffer[..size]) == n + 1
      invariant forall k :: 0 <= k < size && k != i ==> IsDigit(buffer[k])
      invariant IsDigit(buffer[i]) || DigitOf(buffer[i]) == 10
      invariant forall k :: i < k < size ==> buffer[k] == '0'
    {
      s := buffer[..size];
      CarryKeepsValue(s, i);
      buffer[i] := '0';
      buffer[i - 1] := (buffer[i - 1] as int + 1) as char;
      assert buffer[..size] == s[i := '0'][i - 1 := (s[i - 1] as int + 1) as char];
      i := i - 1;
    }
  }

  /** Digits spell a number below the power of ten of their count. */
  lemma {:induction false} SpelledBelow(s: seq<char>)
    requires AllDigits(s)
    ensures 0 <= Spelled(s) < Pow(10, |s|)
  {
    if |s| > 0 {
      SpelledBelow(s[..|s| - 1]);
      Pow10Step(|s| - 1);
    }
  }

  /**
  The number stands in `size` digits. Only 99..9 rounded up, which is the power of ten, needs one
  digit more in fixed notation, and otherwise gives up its last zero to the exponent.
   */
  ghost predicate Placed(state: GenDigitsState, size: nat, exp10: int)
    requires state.Valid()
    reads state, state.Buffer
  {
    && exp10 <= state.Exp10
    && var rolled := state.Number() * Pow(10, state.Exp10 - exp10) == Pow(10, size);
      && state.Size == size + (if state.Fixed && rolled then 1 else 0)
      && state.Exp10 == exp10 + if !state.Fixed && rolled then 1 else 0
  }

  /** Adding one to the last digit, with the rollover from 99..9 to a longer number. */
  method RoundUp(state: GenDigitsState)
    requires state.Valid() && 0 < state.Size < state.Buffer.Length
    modifies state`Size, state`Exp10, state.Buffer
    ensures state.Valid() && Placed(state, old(state.Size), old(state.Exp10))
    ensures state.Number() * Pow(10, state.Exp10 - old(state.Exp10)) == old(state.Number()) + 1
  {
    hide Spelled, Pow;
    IncrementDigits(state.Buffer, state.Size);
    Pow10Step(0);
    if state.Buffer[0] > '9' {
      ghost var s := state.Buffer[..state.Size];
      var size := state.Size;
      SpelledZeros(s);
      RollOver(s);
      state.Buffer[0] := '1';
      assert state.Buffer[..size] == s[0 := '1'];
      if state.Fixed {
        state.Buffer[size] := '0';
        state.Size := state.Size + 1;
        assert state.Buffer[..size + 1] == s[0 := '1'] + ['0'];
        SpelledPush(s[0 := '1'], '0');
      } else {
        state.Exp10 := state.Exp10 + 1;
      }
    } else {
      SpelledBelow(state.Buffer[..state.Size]);
    }
  }

  /** A ten in front of zeros, and the one in front of zeros it is turned into. */
  lemma RollOver(s: seq<char>)
    requires |s| > 0 && DigitOf(s[0]) == 10 && forall i :: 1 <= i < |s| ==> s[i] == '0'
    ensures Spelled(s[0 := '1']) * 10 == Spelled(s)
    ensures Spelled(s) == Pow(10, |s|)
    ensures AllDigits(s[0 := '1']) && AllDigits(s[0 := '1'] + ['0'])
    ensures Pow(10, 1) == 10
  {
    hide Spelled, Pow;
    SpelledZeros(s);
    SpelledZeros(s[0 := '1']);
    Pow10Step(|s| - 1);
    Pow10Step(0);
  }

  /** The digits stand for the rounded value: `error` around `n * unit + rest` is within half a unit. */
  ghost predicate RoundedTo(number: int, exponent: nat, n: int, rest: int, error: int, unit: int) {
    && (number * Pow(10, exponent) == n || number * Pow(10, exponent) == n + 1)
    && HalfUnit(n * unit + rest, error, (number * Pow(10, exponent)) * unit, unit)
  }

  /**
  `on_digit`: one more digit. The value is the digits so far times the divisor, plus
  the remainder; when generation is done the buffer holds the nearest number.
   */
  method OnDigit(state: GenDigitsState, digit: char, divisor: nat, remainder: nat, error: nat, integral: bool)
      returns (result: GenDigitsResult)
    requires state.Valid() && state.Size + 2 <= state.Buffer.Length && IsDigit(digit)
    requires remainder < divisor && (integral ==> error == 1 && divisor > 2)
    modifies state`Size, state`Exp10, state.Buffer
    ensures state.Valid() && old(state.Size) < state.Size <= old(state.Size) + 2
    ensures result == MORE <==> (integral || error < remainder) && old(state.Size) + 1 < state.Precision
    ensures result == DONE <==>
      && old(state.Size) + 1 >= state.Precision
      && (integral || (error < remainder && 2 * error < divisor))
      && OneSided(divisor, remainder, error)
    ensures result == MORE ==>
      && state.Size == old(state.Size) + 1 && state.Size < state.Precision && state.Exp10 == old(state.Exp10)
      && state.Number() == 10 * old(state.Number()) + DigitOf(digit)
      && (!integral ==> error < remainder)
    ensures result == ERROR ==> state.Size == old(state.Size) + 1 && state.Exp10 == old(state.Exp10)
    ensures result == ERROR ==> state.Number() == 10 * old(state.Number()) + DigitOf(digit)
    ensures result == DONE ==>
      && Placed(state, old(state.Size) + 1, old(state.Exp10))
      && RoundedTo(state.Number(), state.Exp10 - old(state.Exp10),
                   10 * old(state.Number()) + DigitOf(digit), remainder, error, divisor)
  {
    hide Spelled, Pow, GetRoundDirection, HalfUnit;
    ghost var s := state.Buffer[..state.Size];
    state.Buffer[state.Size] := digit;
    state.Size := state.Size + 1;
    SpelledPush(s, digit);
    assert state.Buffer[..state.Size] == s + [digit];
    if !integral && error >= remainder { return ERROR; }
    if state.Size < state.Precision { return MORE; }
    if !integral {
      if error >= divisor || error >= divisor - error { return ERROR; }
    }
    var dir := GetRoundDirection(divisor, remainder, error);
    ghost var n := state.Number();
    RoundingIsSound(n, divisor, remainder, error);
    SpelledBelow(state.Buffer[..state.Size]);
    Pow10Step(0);
    if dir != UP {
      return if dir == DOWN then DONE else ERROR;
    }
    RoundUp(state);
    return DONE;
  }

  lemma StartRounds(divisor: nat, remainder: nat, error: nat)
    requires remainder < divisor && error < divisor && error < divisor - error
    ensures GetRoundDirection(divisor, remainder, error) == DOWN ==> HalfUnit(remainder, error, 0 * divisor, divisor)
    ensures GetRoundDirection(divisor, remainder, error) == UP ==> HalfUnit(remainder, error, 1 * divisor, divisor)
  {
    RoundingIsSound(0, divisor, remainder, error);
  }

  /**
  `gen_digits_on_start`: in fixed notation the precision may be used up before the
  first digit. A single digit written here has the weight of `scale`, ten times the divisor.
   */
  method GenDigitsOnStart(state: GenDigitsState, divisor: nat, remainder: nat, error: nat, exp: int)
      returns (result: GenDigitsResult)
    requires state.Valid() && state.Size == 0 && state.Buffer.Length >= 1
    requires remainder < divisor && error < divisor - error
    modifies state`Size, state`Precision, state.Buffer
    ensures state.Valid() && state.Size <= 1
    ensures state.Precision == if state.Fixed then old(state.Precision) + exp + state.Exp10 else old(state.Precision)
    ensures result == MORE <==> !state.Fixed || state.Precision > 0
    ensures result == DONE <==>
      state.Fixed && (state.Precision < 0 || (state.Precision == 0 && OneSided(divisor, remainder, error)))
    ensures result != DONE ==> state.Size == 0
    ensures result == DONE && state.Precision < 0 ==> state.Size == 0
    ensures result == DONE && state.Precision == 0 ==>
      && state.Size == 1 && 0 <= state.Number() <= 1
      && HalfUnit(remainder, error, state.Number() * divisor, divisor)
  {
    hide GetRoundDirection, OneSided, HalfUnit, Spelled;
    if !state.Fixed { return MORE; }
    state.Precision := state.Precision + exp + state.Exp10;
    if state.Precision > 0 { return MORE; }
    if state.Precision < 0 { return DONE; }
    var dir := GetRoundDirection(divisor, remainder, error);
    if dir == UNKNOWN { return ERROR; }
    StartRounds(divisor, remainder, error);
    state.Buffer[0] := if dir == UP then '1' else '0';
    state.Size := 1;
    SpelledNothing();
    SpelledPush([], state.Buffer[0]);
    assert state.Buffer[..1] == [] + [state.Buffer[0]];
    return DONE;
  }

  /**
  The digits `number`, the last of which has the weight 10^exp, are within half of that
  weight of every number in [f - 1, f + 1]; all of them scaled by 2^k.
   */
  ghost predicate Nearest(f: int, k: nat, number: int, exp: int) {
    if exp >= 0 then HalfUnit(f, 1, number * (Pow(10, exp) * Pow(2, k)), Pow(10, exp) * Pow(2, k))
    else HalfUnit(f * Pow(10, -exp), Pow(10, -exp), number * Pow(2, k), Pow(2, k))
  }

  /** The buffer, with the decimal exponent as it was changed by a rollover, is nearest to `f`. */
  ghost predicate Rounded(state: GenDigitsState, f: int, k: nat, exp10: int, exp: int)
    requires state.Valid()
    reads state, state.Buffer
  {
    exp10 <= state.Exp10 && Nearest(f, k, state.Number() * Pow(10, state.Exp10 - exp10), exp)
  }

  /** The digits still to come from the integral part: `number` so far, `integral` left. */
  ghost predicate IntegralState(f: int, one: int, number: int, integral: int, fractional: int, exp: nat) {
    && 0 <= integral < Pow(10, exp) && 0 <= fractional < one
    && f == number * (Pow(10, exp) * one) + (integral * one + fractional)
  }

  /** One more digit of the integral part. */
  lemma IntegralStep(f: int, one: int, number: int, integral: int, fractional: int, exp: nat)
    requires exp > 0 && IntegralState(f, one, number, integral, fractional, exp)
    ensures var p := Pow(10, exp - 1); var digit, rest := integral / p, integral % p;
      0 <= digit <= 9 && 0 <= rest * one + fractional < p * one
      && IntegralState(f, one, 10 * number + digit, rest, fractional, exp - 1)
  {
    hide Pow;
    var p := Pow(10, exp - 1);
    Pow10Step(exp - 1);
    var digit, rest := integral / p, integral % p;
    DivModLaw(integral, p);
    if digit >= 10 { MulMono(10, digit, p); }
    if digit < 0 { MulMono(digit, -1, p); }
    MulMono(rest + 1, p, one);
    Distribute(one, rest, 1);
    MulMono(0, rest, one);
    IntegralAlgebra(number, p, one, digit, rest);
  }

  lemma IntegralAlgebra(number: int, p: int, one: int, digit: int, rest: int)
    ensures number * ((10 * p) * one) + (digit * p + rest) * one == (10 * number + digit) * (p * one) + rest * one
  {
    MulAssoc(10, p, one);
    MulSwap(number, 10, p * one);
    MulAssoc(10, number, p * one);
    Distribute(p * one, 10 * number, digit);
    MulAssoc(digit, p, one);
    Distribute(one, digit * p, rest);
  }

  /** Whether the digit of weight 10^exp can be rounded with what is known of the value. */
  ghost predicate Decidable(f: int, k: nat, exp: int) {
    if exp >= 0 then
      var unit := Pow(10, exp) * Pow(2, k);
      unit > 0 && OneSided(unit, f % unit, 1)
    else
      && (forall i :: 1 <= i <= -exp ==> ErrorBelow(f, Pow(2, k), i))
      && 2 * Pow(10, -exp) < Pow(2, k)
      && OneSided(Pow(2, k), (f * Pow(10, -exp)) % Pow(2, k), Pow(10, -exp))
  }

  /** After `i` fractional digits the error is still below what is left. */
  ghost predicate ErrorBelow(f: int, one: nat, i: nat) {
    one > 0 && Pow(10, i) < (f * Pow(10, i)) % one
  }

  /** The remainder after a digit of weight 10^exp is the one the whole value leaves. */
  lemma IntegralDecides(f: int, k: nat, n: int, rest: int, exp: nat)
    requires 0 <= rest < Pow(10, exp) * Pow(2, k) && f == n * (Pow(10, exp) * Pow(2, k)) + rest
    ensures Decidable(f, k, exp) <==> OneSided(Pow(10, exp) * Pow(2, k), rest, 1)
  {
    hide Pow, OneSided;
    DivModUnique(f, Pow(10, exp) * Pow(2, k), n, rest);
  }

  lemma FractionDecides(f: int, k: nat, n: int, rest: int, j: nat)
    requires j > 0 && FractionState(f, Pow(2, k), n, rest, j)
    requires forall i :: 1 <= i < j ==> ErrorBelow(f, Pow(2, k), i)
    ensures ErrorBelow(f, Pow(2, k), j) <==> Pow(10, j) < rest
    ensures Decidable(f, k, 0 - j as int) <==>
      Pow(10, j) < rest && 2 * Pow(10, j) < Pow(2, k) && OneSided(Pow(2, k), rest, Pow(10, j))
  {
    hide Pow, OneSided;
    DivModUnique(f * Pow(10, j), Pow(2, k), n, rest);
  }

  /** Done in the integral part: the rounded digits are the nearest. */
  lemma IntegralDone(f: int, k: nat, n: int, rest: int, exp: nat, number: int, up: nat)
    requires f == n * (Pow(10, exp) * Pow(2, k)) + rest
    requires RoundedTo(number, up, n, rest, 1, Pow(10, exp) * Pow(2, k))
    ensures Nearest(f, k, number * Pow(10, up), exp)
  {
    hide Pow, HalfUnit;
  }

  /** The fractional part after j digits: everything has been multiplied by 10^j. */
  ghost predicate FractionState(f: int, one: int, number: int, fractional: int, j: nat) {
    0 <= fractional < one && f * Pow(10, j) == number * one + fractional
  }

  lemma FractionStep(f: int, one: int, number: int, fractional: int, j: nat)
    requires one > 0 && FractionState(f, one, number, fractional, j)
    ensures var digit, rest := (fractional * 10) / one, (fractional * 10) % one;
      0 <= digit <= 9 && FractionState(f, one, 10 * number + digit, rest, j + 1)
  {
    hide Pow;
    Pow10Step(j);
    var digit, rest := (fractional * 10) / one, (fractional * 10) % one;
    DivModLaw(fractional * 10, one);
    if digit >= 10 { MulMono(10, digit, one); }
    if digit < 0 { MulMono(digit, -1, one); }
    MulSwap(f, 10, Pow(10, j));
    MulAssoc(10, number, one);
    Distribute(one, 10 * number, digit);
  }

  lemma FractionDone(f: int, k: nat, n: int, rest: int, j: nat, number: int, up: nat)
    requires j > 0 && f * Pow(10, j) == n * Pow(2, k) + rest
    requires RoundedTo(number, up, n, rest, Pow(10, j), Pow(2, k))
    ensures Nearest(f, k, number * Pow(10, up), 0 - j as int)
  {
    hide Pow, HalfUnit;
  }

  lemma IntegralToFraction(f: int, one: int, number: int, integral: int, fractional: int)
    requires IntegralState(f, one, number, integral, fractional, 0)
    ensures FractionState(f, one, number, fractional, 0)
  {
    Pow10Step(0);
  }

  /** A tenfold error that stays below 2^60 has been multiplied at most 18 times. */
  lemma ErrorBound(j: nat, one: int)
    requires Pow(10, j) < one <= 0x1000_0000_0000_0000
    ensures j <= 18
  {
    hide Pow;
    Pow10Values();
    if j > 18 { PowMonotone(10, 19, j); }
  }

  /** A digit decided before the first one: the division by ten leaves room for its rounding. */
  lemma StartDone(f: nat, k: nat, number: int, exp: nat)
    requires exp > 0
    requires HalfUnit(f / 10, 10, number * (Pow(10, exp - 1) * Pow(2, k)), Pow(10, exp - 1) * Pow(2, k))
    ensures Nearest(f, k, number * Pow(10, 0), exp)
  {
    hide Pow;
    Pow10Step(0);
    var unit := Pow(10, exp - 1) * Pow(2, k);
    Pow10Step(exp - 1);
    MulAssoc(10, Pow(10, exp - 1), Pow(2, k));
    MulSwap(number, 10, unit);
    ScaleHalf(f, number * unit, unit);
  }

  lemma ScaleHalf(f: nat, target: int, unit: int)
    requires HalfUnit(f / 10, 10, target, unit)
    ensures HalfUnit(f, 1, 10 * target, 10 * unit)
  {
  }

  /** What the first digit needs: the leading power of ten, scaled, does not exceed the value. */
  lemma LeadingUnit(f: nat, k: nat, integral: nat, exp: nat)
    requires f < TWO64 && 32 <= k <= 60 && integral == f / Pow(2, k) && 0 < integral
    requires exp == CountDigits(integral)
    ensures 1 <= exp <= 10 && integral < 0x1_0000_0000
    ensures 0x1_0000_0000 <= Pow(10, exp - 1) * Pow(2, k) <= f < Pow(10, exp) * Pow(2, k)
    ensures f / 10 < Pow(10, exp - 1) * Pow(2, k)
    ensures IntegralState(f, Pow(2, k), 0, integral, f % Pow(2, k), exp)
  {
    hide Pow, CountDigits;
    var one := Pow(2, k);
    Pow2Word();
    PowMonotone(2, 32, k);
    DivModLaw(f, one);
    if integral >= 0x1_0000_0000 { MulMono(0x1_0000_0000, integral, one); MulMono(one, 0x1_0000_0000, 0x1_0000_0000); }
    CountDigitsExact(integral);
    Pow10Values();
    if exp > 10 { PowMonotone(10, 10, exp - 1); }
    Pow10Step(exp - 1);
    MulMono(1, Pow(10, exp - 1), one);
    MulMono(Pow(10, exp - 1), integral, one);
    MulMono(integral + 1, Pow(10, exp), one);
    Distribute(one, integral, 1);
    MulAssoc(10, Pow(10, exp - 1), one);
  }

  /** The digits of the integral part, at most ten of them. */
  method GenIntegralDigits(state: GenDigitsState, f: nat, k: nat, first: nat, fractional: nat, kappa: int)
      returns (result: GenDigitsResult, exp: int)
    requires state.Valid() && state.Size == 0 && state.Buffer.Length >= 30 && 32 <= k <= 60
    requires 1 <= kappa <= 10 && IntegralState(f, Pow(2, k), 0, first, fractional, kappa)
    modifies state`Size, state`Exp10, state.Buffer
    ensures state.Valid() && 0 <= exp < kappa && state.Size <= kappa - exp + 1
    ensures result == MORE <==> state.Precision > kappa
    ensures result == MORE ==> exp == 0 && state.Size == kappa && state.Exp10 == old(state.Exp10)
    ensures result != MORE ==> exp == kappa - AtLeastOne(state.Precision)
    ensures result == DONE <==> state.Precision <= kappa && Decidable(f, k, exp)
    ensures result == ERROR ==> state.Size == kappa - exp && state.Exp10 == old(state.Exp10)
    ensures result == MORE ==> FractionState(f, Pow(2, k), state.Number(), fractional, 0)
    ensures result == DONE ==> state.Size > 0 && Rounded(state, f, k, old(state.Exp10), exp)
    ensures result == DONE ==> Placed(state, AtLeastOne(state.Precision), old(state.Exp10))
  {
    hide Pow, Spelled, IntegralState, FractionState, Nearest, RoundedTo, PowerOf10, OneSided, Decidable;
    exp := kappa;
    var integral := first;
    SpelledNothing();
    assert state.Buffer[..0] == [];
    while true
      invariant 0 < exp <= kappa && state.Valid() && state.Size == kappa - exp
      invariant IntegralState(f, Pow(2, k), state.Number(), integral, fractional, exp)
      invariant state.Exp10 == old(state.Exp10)
      invariant state.Size == 0 || state.Size < state.Precision
      decreases exp
    {
      ghost var number := state.Number();
      IntegralStep(f, Pow(2, k), number, integral, fractional, exp);
      var divisor := PowerOf10(exp - 1);
      var digit := integral / divisor;
      integral := integral % divisor;
      exp := exp - 1;
      var remainder := integral * Pow(2, k) + fractional;
      UnitLarge(exp, k);
      result := OnDigit(state, ('0' as int + digit) as char, PowerOf10(exp) * Pow(2, k), remainder, 1, true);
      StateEquation(f, Pow(2, k), 10 * number + digit, integral, fractional, exp);
      IntegralDecides(f, k, 10 * number + digit, remainder, exp);
      if result != MORE {
        if result == DONE {
          IntegralDone(f, k, 10 * number + digit, remainder, exp, state.Number(), state.Exp10 - old(state.Exp10));
        }
        return;
      }
      if exp == 0 { break; }
    }
    IntegralToFraction(f, Pow(2, k), state.Number(), integral, fractional);
  }

  /** Without a fixed precision at least one digit is written. */
  function AtLeastOne(precision: int): nat {
    if precision < 1 then 1 else precision
  }

  lemma SpelledNothing()
    ensures Spelled([]) == 0
  {
  }

  lemma UnitLarge(exp: nat, k: nat)
    requires k >= 32
    ensures Pow(10, exp) * Pow(2, k) > 2
  {
    hide Pow;
    Pow2Word();
    PowMonotone(2, 32, k);
    MulMono(1, Pow(10, exp), Pow(2, k));
  }

  lemma StateEquation(f: int, one: int, number: int, integral: int, fractional: int, exp: nat)
    requires IntegralState(f, one, number, integral, fractional, exp)
    ensures f == number * (Pow(10, exp) * one) + (integral * one + fractional)
  {
  }

  /**
  The digits of the fractional part. The loop ends by itself: the error grows tenfold
  with each digit, and one more digit is only asked for while it is below 2^60. Nothing
  overflows 64 bits on the way.
   */
  method GenFractionalDigits(state: GenDigitsState, f: nat, k: nat, first: nat)
      returns (result: GenDigitsResult, exp: int)
    requires state.Valid() && state.Size <= 10 && state.Buffer.Length >= 30 && 32 <= k <= 60
    requires FractionState(f, Pow(2, k), state.Number(), first, 0) && state.Size < state.Precision
    modifies state`Size, state`Exp10, state.Buffer
    ensures state.Valid() && state.Size <= 30 && -19 <= exp < 0 && result != MORE
    ensures result == DONE <==> Decidable(f, k, old(state.Size) - state.Precision)
    ensures result == DONE ==> exp == old(state.Size) - state.Precision
    ensures result == ERROR ==> state.Size == old(state.Size) - exp && state.Exp10 == old(state.Exp10)
    ensures result == DONE ==> state.Size > 0 && Rounded(state, f, k, old(state.Exp10), exp)
    ensures result == DONE ==> Placed(state, state.Precision, old(state.Exp10))
  {
    hide Pow, Spelled, FractionState, Nearest, RoundedTo, OneSided, Decidable, ErrorBelow;
    var one := Pow(2, k);
    var fractional, error := first, 1;
    ghost var j := 0;
    exp := 0;
    OneBounds(k);
    while true
      invariant 0 <= j <= 18 && exp == -j && error == Pow(10, j) < one
      invariant state.Valid() && state.Size == old(state.Size) + j
      invariant state.Exp10 == old(state.Exp10) && state.Size < state.Precision
      invariant FractionState(f, one, state.Number(), fractional, j)
      invariant forall i :: 1 <= i <= j ==> ErrorBelow(f, one, i)
      decreases 18 - j
    {
      ghost var number := state.Number();
      FractionStep(f, one, number, fractional, j);
      FractionBounds(f, one, number, fractional, j);
      Pow10Step(j);
      assert fractional * 10 < TWO64 && error * 10 < TWO64;
      var digit := (fractional * 10) / one;
      fractional := (fractional * 10) % one;
      error := error * 10;
      exp := exp - 1;
      j := j + 1;
      result := OnDigit(state, ('0' as int + digit) as char, one, fractional, error, false);
      FractionBounds(f, one, 10 * number + digit, fractional, j);
      FractionDecides(f, k, 10 * number + digit, fractional, j);
      if result != MORE {
        if result == DONE {
          FractionDone(f, k, 10 * number + digit, fractional, j, state.Number(), state.Exp10 - old(state.Exp10));
        } else if fractional <= error {
          NeedsEveryDigit(f, k, j, state.Precision - old(state.Size));
        }
        return;
      }
      ErrorBound(j, one);
    }
  }

  lemma NeedsEveryDigit(f: int, k: nat, i: nat, j: nat)
    requires 1 <= i <= j && !ErrorBelow(f, Pow(2, k), i)
    ensures !Decidable(f, k, 0 - j as int)
  {
    hide ErrorBelow, OneSided, Pow;
  }

  lemma OneBounds(k: nat)
    requires 32 <= k <= 60
    ensures 1 < Pow(2, k) <= 0x1000_0000_0000_0000 && Pow(10, 0) == 1
  {
    hide Pow;
    Pow10Step(0);
    Pow2Word();
    PowMonotone(2, 32, k);
    PowMonotone(2, k, 60);
    PowAdd(2, 60, 4);
    Pow2Small();
  }

  lemma FractionBounds(f: int, one: int, number: int, fractional: int, j: nat)
    requires FractionState(f, one, number, fractional, j)
    ensures 0 <= fractional < one && f * Pow(10, j) == number * one + fractional
  {
  }

  /** The number of decimal digits of the integral part of f / 2^k. */
  ghost function IntegralDigits(f: nat, k: nat): nat
    requires f < TWO64
  {
    QuotientBounds(f, Pow(2, k));
    CountDigits(f / Pow(2, k))
  }

  /** Whether the last of `precision` digits can be rounded. */
  ghost predicate CanFinish(f: nat, k: nat, fixed: bool, precision: int)
    requires f < TWO64
  {
    var kappa := IntegralDigits(f, k);
    if fixed && precision < 0 then true
    else if fixed && precision == 0 then kappa > 0 && OneSided(Pow(10, kappa - 1) * Pow(2, k), f / 10, 10)
    else Decidable(f, k, kappa - AtLeastOne(precision))
  }

  /** The decimal exponent that is returned with the digits. */
  ghost function LastExponent(f: nat, k: nat, fixed: bool, precision: int): int
    requires f < TWO64
  {
    IntegralDigits(f, k) - if fixed && precision <= 0 then 0 else AtLeastOne(precision)
  }

  /** What is below the leading power of ten is below half of the next but one. */
  lemma NothingToWrite(f: nat, k: nat, kappa: nat, exp: nat)
    requires 1 <= f < Pow(10, kappa) * Pow(2, k) && exp > kappa
    ensures Nearest(f, k, 0, exp)
  {
    hide Pow;
    Pow10Step(exp - 1);
    PowMonotone(10, kappa, exp - 1);
    MulMono(Pow(10, kappa), Pow(10, exp - 1), Pow(2, k));
    MulAssoc(10, Pow(10, exp - 1), Pow(2, k));
  }

  /**
  `gen_digits`: when digit generation is done, the number in the buffer, with the final
  exponent, is within half a unit of its last place of every number in [f - 1, f + 1].
  It always ends, after at most 30 characters, and is done exactly when the digit asked for
  can be rounded. Nothing is written when the value is below half a unit of that digit. After an
  error the digits written and the exponent still tell where the decimal point was.
   */
  method GenDigits(state: GenDigitsState, f: nat, k: nat) returns (result: GenDigitsResult, exp: int)
    requires f < TWO64 && 32 <= k <= 60 && f / Pow(2, k) != 0
    requires state.Valid() && state.Size == 0 && state.Buffer.Length >= 30
    modifies state`Size, state`Exp10, state`Precision, state.Buffer
    ensures state.Valid() && state.Size <= 30 && result != MORE
    ensures state.Precision == old(state.Precision) + if state.Fixed then IntegralDigits(f, k) + old(state.Exp10) else 0
    ensures result == DONE <==> CanFinish(f, k, state.Fixed, state.Precision)
    ensures result == DONE ==> exp == LastExponent(f, k, state.Fixed, state.Precision)
    ensures result == ERROR ==> exp + state.Size == IntegralDigits(f, k) && state.Exp10 == old(state.Exp10)
    ensures result == DONE && state.Size == 0 ==>
      state.Fixed && state.Precision < 0 && Nearest(f, k, 0, IntegralDigits(f, k) - state.Precision)
    ensures result == DONE && state.Size > 0 ==> Rounded(state, f, k, old(state.Exp10), exp)
    ensures result == DONE && state.Size > 0 ==> Placed(state, AtLeastOne(state.Precision), old(state.Exp10))
    ensures result == DONE && state.Size == 0 ==> state.Exp10 == old(state.Exp10)
    ensures result == DONE && state.Fixed ==> (state.Size == 0 <==> state.Precision < 0)
  {
    hide Pow, Spelled, IntegralState, FractionState, Nearest, CountDigits, HalfUnit, PowerOf10, OneSided, Decidable;
    var one := Pow(2, k);
    QuotientBounds(f, one);
    var integral, fractional := f / one, f % one;
    exp := CountDigits(integral);
    LeadingUnit(f, k, integral, exp);
    var leading := PowerOf10(exp - 1);
    SameFactor(leading, Pow(10, exp - 1), one);
    Pow10Step(0);
    result := GenDigitsOnStart(state, leading * one, f / 10, 10, exp);
    if result != MORE {
      if result == DONE && state.Size > 0 {
        StartDone(f, k, state.Number(), exp);
      } else if result == DONE {
        NothingToWrite(f, k, exp, exp - state.Precision);
      }
      return;
    }
    ghost var kappa := exp;
    result, exp := GenIntegralDigits(state, f, k, integral, fractional, exp);
    if result == MORE {
      result, exp := GenFractionalDigits(state, f, k, fractional);
    }
  }
}
