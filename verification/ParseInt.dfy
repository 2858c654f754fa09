/**
Parsing unsigned integers (`include/lstd/parse.h`, lines 49-55 and 76-285), for ASCII input.
Reading at the end of the input steps one character past it, as the code does.
 */
module ParseInt {
  import opened Powers
  import opened PrintParse

  const CP_INVALID: int := 0xfffd

  /** `cp_to_digit_default`. */
  function CpToDigit(c: char): int {
    if '0' <= c <= '9' then c as int - '0' as int
    else if 'a' <= c <= 'z' then c as int - 'a' as int + 10
    else if 'A' <= c <= 'Z' then c as int - 'A' as int + 10
    else CP_INVALID
  }

  /** `parse_int_options`; `MaxDigits` is -1 for no limit. */
  datatype Options = Options(MaxDigits: int, BailOnTooManyDigits: bool, ReturnLimitOnTooManyDigits: bool,
                             LookForBasePrefix: bool)

  datatype Status = Invalid | Success | TooManyDigits

  /** `Rest` is the number of characters consumed. */
  datatype ParseResult = ParseResult(Value: nat, Status: Status, Rest: nat)

  /** Negation of a word with the maximum `max`. */
  function HandleNegative(value: nat, negative: bool, max: nat): (v: nat)
    requires value <= max
    ensures v <= max && (if negative then (v + value) % (max + 1) == 0 else v == value)
  {
    if !negative then value
    else if value == 0 then 0
    else max + 1 - value
  }

  // What a string of digits stands for

  predicate Valid(c: char, base: nat) {
    0 <= CpToDigit(c) < base
  }

  predicate AllValid(s: string, base: nat) {
    forall i :: 0 <= i < |s| ==> Valid(s[i], base)
  }

  function Number(s: string, base: nat): nat
    requires AllValid(s, base)
  {
    if s == "" then 0 else Number(s[..|s| - 1], base) * base + CpToDigit(s[|s| - 1])
  }

  /** `k` is the length of the digits at the start of `s`, up to the limit. */
  ghost predicate IsRun(s: string, base: nat, limit: int, k: nat) {
    && k <= |s| && (limit == -1 || k <= limit)
    && AllValid(s[..k], base)
    && (k == |s| || k == limit || !Valid(s[k], base))
  }

  lemma RunIsUnique(s: string, base: nat, limit: int, j: nat, k: nat)
    requires IsRun(s, base, limit, j) && IsRun(s, base, limit, k)
    ensures j == k
  {
  }

  lemma NumberStep(s: string, base: nat, k: nat)
    requires k < |s| && AllValid(s[..k + 1], base)
    ensures AllValid(s[..k], base)
    ensures Number(s[..k + 1], base) == Number(s[..k], base) * base + CpToDigit(s[k])
  {
    var t := s[..k + 1];
    assert t[..|t| - 1] == s[..k];
    forall i | 0 <= i < k ensures Valid(s[..k][i], base) {
      assert Valid(t[i], base);
    }
  }

  lemma {:induction false} NumberGrows(s: string, base: nat, j: nat, k: nat)
    requires base >= 1 && j <= k <= |s| && AllValid(s[..k], base)
    ensures AllValid(s[..j], base) && Number(s[..j], base) <= Number(s[..k], base)
  {
    if j < k {
      NumberStep(s, base, k - 1);
      assert Valid(s[..k][k - 1], base);
      NumberGrows(s, base, j, k - 1);
      MulMono(1, base, Number(s[..k - 1], base));
    }
  }

  /** The test against `cutOff` and `cutLim` fires exactly when the next value is too large. */
  lemma CutOffIsExact(value: nat, digit: nat, base: nat, max: nat)
    requires base > 0 && digit < base
    ensures (value > max / base || (value == max / base && digit > max % base)) <==> value * base + digit > max
  {
    DivModLaw(max, base);
    var q := max / base;
    if value > q {
      MulMono(q + 1, value, base);
      Distribute(base, q, 1);
    } else if value < q {
      MulMono(value + 1, q, base);
      Distribute(base, value, 1);
    }
  }

  /** Arithmetic in the type with the maximum `max`. */
  function Wrapped(x: nat, max: nat): (w: nat)
    ensures w <= max && (x <= max ==> w == x)
  {
    x % (max + 1)
  }

  /** Wrapping after every digit is wrapping once. */
  lemma WrapStep(n: nat, base: nat, digit: nat, max: nat)
    ensures Wrapped(Wrapped(n, max) * base + digit, max) == Wrapped(n * base + digit, max)
  {
    var m := max + 1;
    var q := n / m;
    DivModLaw(n, m);
    Distribute(base, q * m, n % m);
    MulAssoc(q, m, base);
    MulSwap(q, m, base);
    assert n * base + digit == (n % m) * base + digit + m * (q * base);
    var x := (n % m) * base + digit;
    DivModLaw(x, m);
    Distribute(m, x / m, q * base);
    DivModUnique(n * base + digit, m, x / m + q * base, x % m);
  }

  // The outcome

  /** The outcome for input that starts with `k` digits. */
  ghost predicate Outcome(s: string, base: nat, negative: bool, max: nat, o: Options, k: nat, r: ParseResult)
    requires base > 0 && k <= |s| && AllValid(s[..k], base)
  {
    if k == 0 then
      NoDigits(base, o, r)
    else if o.BailOnTooManyDigits && Number(s[..k], base) > max then
      exists j: nat :: j < k && Overflows(s, base, negative, max, o, k, j, r)
    else
      r == ParseResult(HandleNegative(Wrapped(Number(s[..k], base), max), negative, max), Success, k)
  }

  ghost predicate NoDigits(base: nat, o: Options, r: ParseResult) {
    if o.LookForBasePrefix then r == ParseResult(0, if base == 8 then Success else Invalid, 0)
    else r == ParseResult(0, Invalid, 1)
  }

  /** The first digit that makes the number too large is the one at `j`. */
  ghost predicate Overflows(s: string, base: nat, negative: bool, max: nat, o: Options, k: nat, j: nat, r: ParseResult)
    requires base > 0 && j < k <= |s| && AllValid(s[..k], base)
  {
    NumberGrows(s, base, j, k);
    NumberGrows(s, base, j + 1, k);
    var before := Number(s[..j], base);
    && before <= max < Number(s[..j + 1], base)
    && r == ParseResult(HandleNegative(if o.ReturnLimitOnTooManyDigits then max else before, negative, max),
                        TooManyDigits, j + 1)
  }

  /** The value kept by the loop. */
  ghost predicate Kept(s: string, base: nat, max: nat, bail: bool, at: nat, value: nat) {
    && at <= |s| && AllValid(s[..at], base) && value <= max
    && value == (if bail then Number(s[..at], base) else Wrapped(Number(s[..at], base), max))
  }

  /** The value with one more digit, before it wraps around. */
  function Next(value: nat, base: nat, c: char): (next: nat)
    requires Valid(c, base)
  {
    value * base + CpToDigit(c)
  }

  /** One digit: either it does not fit, or the loop goes on. */
  lemma KeptStep(s: string, base: nat, max: nat, bail: bool, at: nat, value: nat)
    requires Kept(s, base, max, bail, at, value) && at < |s| && Valid(s[at], base)
    ensures AllValid(s[..at + 1], base)
    ensures var next := Next(value, base, s[at]);
      && (bail ==> Number(s[..at + 1], base) == next)
      && (!bail || next <= max ==> Kept(s, base, max, bail, at + 1, Wrapped(next, max)))
  {
    hide Number, Wrapped, CpToDigit;
    ValidSoFar(s, base, at);
    NumberStep(s, base, at);
    WrapStep(Number(s[..at], base), base, CpToDigit(s[at]), max);
  }

  /** The loop stopped at the end of the digits. */
  lemma Finished(s: string, base: nat, negative: bool, max: nat, o: Options, at: nat, value: nat)
    requires base > 0 && Kept(s, base, max, o.BailOnTooManyDigits, at, value) && at > 0
    ensures Outcome(s, base, negative, max, o, at, ParseResult(HandleNegative(value, negative, max), Success, at))
  {
    hide Number, Wrapped, HandleNegative, Valid;
  }

  /** The number is too large already at `at`, so it is too large at the end of the digits. */
  lemma BailedOut(s: string, base: nat, negative: bool, max: nat, o: Options, at: nat, value: nat, k: nat)
    requires base > 0 && Kept(s, base, max, true, at, value) && o.BailOnTooManyDigits
    requires at < |s| && Valid(s[at], base) && value * base + CpToDigit(s[at]) > max
    requires IsRun(s, base, o.MaxDigits, k) && at < k
    ensures Outcome(s, base, negative, max, o, k,
      ParseResult(HandleNegative(if o.ReturnLimitOnTooManyDigits then max else value, negative, max),
                  TooManyDigits, at + 1))
  {
    KeptStep(s, base, max, true, at, value);
    NumberGrows(s, base, at + 1, k);
    NumberGrows(s, base, at, k);
    assert Overflows(s, base, negative, max, o, k, at,
      ParseResult(HandleNegative(if o.ReturnLimitOnTooManyDigits then max else value, negative, max),
                  TooManyDigits, at + 1));
  }

  lemma ValidSoFar(s: string, base: nat, at: nat)
    requires at < |s| && AllValid(s[..at], base) && Valid(s[at], base)
    ensures AllValid(s[..at + 1], base)
  {
    var t := s[..at + 1];
    forall i | 0 <= i < |t| ensures Valid(t[i], base) {
      if i < at { assert Valid(s[..at][i], base); }
    }
  }

  ghost function RunFrom(s: string, base: nat, limit: int, at: nat): (k: nat)
    requires at <= |s| && AllValid(s[..at], base) && (limit == -1 || at <= limit)
    ensures IsRun(s, base, limit, k) && k >= at
    ensures at < |s| && at != limit && Valid(s[at], base) ==> k > at
    decreases |s| - at
  {
    if at < |s| && at != limit && Valid(s[at], base) then
      assert AllValid(s[..at + 1], base) by {
        ValidSoFar(s, base, at);
      }
      RunFrom(s, base, limit, at + 1)
    else at
  }

  /** The number of digits at the start of the input. */
  ghost function Run(s: string, base: nat, limit: int): (k: nat)
    requires limit >= -1
    ensures IsRun(s, base, limit, k) && k <= |s| && (limit == -1 || k <= limit)
  {
    RunFrom(s, base, limit, 0)
  }

  /** `parse_int_small_integer` for an unsigned type with the maximum `max`. */
  method ParseIntSmallInteger(s: string, base: nat, negative: bool, max: nat, o: Options) returns (r: ParseResult)
    requires 2 <= base <= 36 <= max && (o.MaxDigits == -1 || o.MaxDigits > 0)
    ensures Outcome(s, base, negative, max, o, Run(s, base, o.MaxDigits), r)
  {
    hide Outcome, Kept, IsRun, Number, HandleNegative, RunFrom, Run, Wrapped, AllValid;
    ghost var k := Run(s, base, o.MaxDigits);
    var cutOff, cutLim := max / base, max % base;
    var maxDigits, firstDigit := o.MaxDigits, true;
    var value: nat, at: nat := 0, 0;
    StartKept(s, base, max, o.BailOnTooManyDigits);
    while true
      invariant firstDigit == (at == 0)
      invariant Kept(s, base, max, o.BailOnTooManyDigits, at, value) && value <= max && at <= k <= |s|
      invariant o.MaxDigits != -1 ==> maxDigits == o.MaxDigits - at >= 0
      decreases |s| - at
    {
      if o.MaxDigits != -1 {
        if maxDigits == 0 { break; }
        maxDigits := maxDigits - 1;
      }
      var digit := if at < |s| then CpToDigit(s[at]) else CP_INVALID;
      RunGoesOn(s, base, o.MaxDigits, at, k);
      at := at + 1;
      if digit < 0 || digit >= base {
        if firstDigit {
          FoundNone(s, base, negative, max, o);
          if o.LookForBasePrefix {
            at := at - 1;
            if base == 8 { return ParseResult(0, Success, at); }
          }
          return ParseResult(0, Invalid, at);
        }
        at := at - 1;
        break;
      }
      firstDigit := false;
      KeptStep(s, base, max, o.BailOnTooManyDigits, at - 1, value);
      CutOffIsExact(value, digit, base, max);
      if o.BailOnTooManyDigits && (value > cutOff || (value == cutOff && digit > cutLim)) {
        BailedOut(s, base, negative, max, o, at - 1, value, k);
        if o.ReturnLimitOnTooManyDigits { value := max; }
        return ParseResult(HandleNegative(value, negative, max), TooManyDigits, at);
      }
      value := Wrapped(value * base + digit, max);
    }
    Finished(s, base, negative, max, o, at, value);
    return ParseResult(HandleNegative(value, negative, max), Success, at);
  }

  lemma FoundNone(s: string, base: nat, negative: bool, max: nat, o: Options)
    requires base > 0
    ensures forall r :: NoDigits(base, o, r) ==> Outcome(s, base, negative, max, o, 0, r)
  {
  }

  lemma StartKept(s: string, base: nat, max: nat, bail: bool)
    ensures Kept(s, base, max, bail, 0, 0)
  {
  }

  lemma RunGoesOn(s: string, base: nat, limit: int, at: nat, k: nat)
    requires IsRun(s, base, limit, k) && at <= k && (limit == -1 || at < limit)
    ensures k <= |s| && (at < k <==> at < |s| && Valid(s[at], base))
  {
    if at < k { assert s[..k][at] == s[at]; }
  }

  // Round trips

  lemma {:induction false} DigitsOfText(v: nat, base: nat, upper: bool)
    requires 2 <= base <= 36
    ensures AllValid(Text(v, base, upper), base) && Number(Text(v, base, upper), base) == v
    decreases v
  {
    hide Number, Valid, CpToDigit, DigitChar;
    if v < base {
      NumberPush("", DigitChar(v, upper), base);
      DigitOfChar(v, base, upper);
      NumberOfNothing(base);
      assert "" + [DigitChar(v, upper)] == [DigitChar(v, upper)];
    } else {
      QuotientBounds(v, base);
      DigitsOfText(v / base, base, upper);
      DigitOfChar(v % base, base, upper);
      NumberPush(Text(v / base, base, upper), DigitChar(v % base, upper), base);
      DivModLaw(v, base);
    }
  }

  /** The valid digits of a base are the digits printed for it, in either case, and no others. */
  lemma ValidExactly(c: char, base: nat)
    requires base <= 36
    ensures Valid(c, base) <==> exists d: nat, upper :: d < base && c == DigitChar(d, upper)
  {
    if Valid(c, base) {
      var d: nat := CpToDigit(c);
      assert c == DigitChar(d, 'A' <= c <= 'Z');
    }
    forall d: nat, upper | d < base ensures Valid(DigitChar(d, upper), base) {
      DigitOfChar(d, base, upper);
    }
  }

  lemma NumberOfNothing(base: nat)
    ensures Number("", base) == 0
  {
  }

  /** One more digit. */
  lemma NumberPush(s: string, c: char, base: nat)
    ensures AllValid(s, base) && Valid(c, base) ==>
      AllValid(s + [c], base) && Number(s + [c], base) == Number(s, base) * base + CpToDigit(c)
  {
    assert (s + [c])[..|s|] == s;
  }

  lemma DigitOfChar(d: nat, base: nat, upper: bool)
    requires d < base <= 36
    ensures CpToDigit(DigitChar(d, upper)) == d && Valid(DigitChar(d, upper), base)
  {
  }

  function BaseOfKind(kind: Kind): nat {
    match kind
    case Binary => 2
    case Octal => 8
    case Hexadecimal => 16
    case _ => 10
  }

  /** Printing any word and parsing the text, whatever follows it, gives the word back and consumes
      exactly the text. */
  method PrintThenParse(value: nat, kind: Kind, upper: bool, following: string, o: Options) returns (r: ParseResult)
    requires value < TWO64 && kind != Separate && o.MaxDigits == -1
    requires following == "" || !Valid(following[0], BaseOfKind(kind))
    ensures r == ParseResult(value, Success, |Formatted(value, kind, upper)|)
  {
    hide Text, Valid, Separated;
    var text, _, _, _ := WriteDigits(value, kind, upper);
    r := ParseIntSmallInteger(text + following, BaseOfKind(kind), false, TWO64 - 1, o);
    ReadsBack(value, BaseOfKind(kind), kind == Hexadecimal && upper, following, o, r);
  }

  lemma ReadsBack(value: nat, base: nat, upper: bool, following: string, o: Options, r: ParseResult)
    requires value < TWO64 && 2 <= base <= 36 && o.MaxDigits == -1
    requires following == "" || !Valid(following[0], base)
    requires var s := Text(value, base, upper) + following;
      Outcome(s, base, false, TWO64 - 1, o, Run(s, base, -1), r)
    ensures r == ParseResult(value, Success, |Text(value, base, upper)|)
  {
    hide Text, Run, Number;
    var t := Text(value, base, upper);
    var s := t + following;
    DigitsOfText(value, base, upper);
    assert s[..|t|] == t;
    RunIsUnique(s, base, -1, Run(s, base, -1), |t|);
  }

  /** The separators of the `n` form are all that keeps it from being read back: removing them
      gives the plain decimal form. */
  lemma SeparatorsOnly(value: nat)
    ensures OnlyDigits(Formatted(value, Separate, false)) == Formatted(value, Decimal, false)
  {
    hide Separated, OnlyDigits, Text;
    DigitsOnly(value);
    SeparatedIsPlain(Text(value, 10, false), COMMA);
  }
}
