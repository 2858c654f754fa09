/**
Printing unsigned words in base 2, 8, 10 and 16 (`src/lstd/fmt/write.cpp`, lines 62-126 and the
sizes of `write_u64`; `include/lstd/bits.h`, lines 185-194). Masks and shifts by `k` bits are
written as the remainder and the quotient by 2^k.
 */
module PrintParse {
  import opened Powers
  import opened DecimalDigits

  // What a number looks like

  function DigitChar(d: nat, upper: bool): (c: char)
    requires d < 36
  {
    if d < 10 then '0' + d as char
    else if upper then 'A' + (d - 10) as char
    else 'a' + (d - 10) as char
  }

  /** The digits of `v`, without leading zeros; zero has one digit. */
  function Text(v: nat, base: nat, upper: bool): (s: string)
    requires 2 <= base <= 36
    ensures |s| >= 1
    decreases v
  {
    if v < base then [DigitChar(v, upper)]
    else
      QuotientBounds(v, base);
      Text(v / base, base, upper) + [DigitChar(v % base, upper)]
  }

  /** No letter of the other case: the meaning of the upper- and lower-case forms. */
  ghost predicate InCase(s: string, upper: bool) {
    forall i :: 0 <= i < |s| ==> if upper then !('a' <= s[i] <= 'z') else !('A' <= s[i] <= 'Z')
  }

  lemma {:induction false} TextInCase(v: nat, base: nat, upper: bool)
    requires 2 <= base <= 36
    ensures InCase(Text(v, base, upper), upper)
    decreases v
  {
    if v >= base {
      QuotientBounds(v, base);
      TextInCase(v / base, base, upper);
    }
  }

  lemma {:induction false} SeparatedInCase(s: string, sep: string, upper: bool)
    requires InCase(s, upper) && InCase(sep, upper)
    ensures InCase(Separated(s, sep), upper)
  {
    if |s| > 3 { SeparatedInCase(s[..|s| - 3], sep, upper); }
  }

  /** The number of characters is the number of digits. */
  lemma {:induction false} TextLength(v: nat, base: nat, upper: bool, n: nat)
    requires 2 <= base <= 36 && n >= 1
    requires v < Pow(base, n) && (n > 1 ==> Pow(base, n - 1) <= v)
    ensures |Text(v, base, upper)| == n
    decreases n
  {
    if n == 1 {
      assert Pow(base, 1) == base * Pow(base, 0) == base;
    } else {
      var p := Pow(base, n - 2);
      assert Pow(base, n - 1) == base * p && Pow(base, n) == base * Pow(base, n - 1);
      hide Pow;
      MulMono(1, p, base);
      QuotientBetween(v, base, p, Pow(base, n - 1));
      TextLength(v / base, base, upper, n - 1);
    }
  }

  lemma QuotientBetween(v: nat, base: nat, lo: nat, hi: nat)
    requires base > 0 && base * lo <= v < base * hi
    ensures lo <= v / base < hi
  {
    DivModLaw(v, base);
    var q := v / base;
    if q < lo { MulMono(q + 1, lo, base); Distribute(base, q, 1); }
    if q >= hi { MulMono(hi, q, base); }
  }

  // Thousands separators

  /** Groups of three digits, counted from the right. */
  function Separated(s: string, sep: string): string {
    if |s| <= 3 then s else Separated(s[..|s| - 3], sep) + sep + s[|s| - 3..]
  }

  lemma SeparatedUnfold(s: string, sep: string)
    ensures Separated(s, sep) ==
      if |s| <= 3 then s else Separated(s[..|s| - 3], sep) + sep + s[|s| - 3..]
  {
  }

  function OnlyDigits(s: string): string {
    if s == "" then ""
    else OnlyDigits(s[..|s| - 1]) + (if IsDigit(s[|s| - 1]) then [s[|s| - 1]] else "")
  }

  lemma {:induction false} OnlyDigitsJoin(s: string, t: string)
    ensures OnlyDigits(s + t) == OnlyDigits(s) + OnlyDigits(t)
  {
    if t == "" {
      assert s + t == s;
    } else {
      var n := |t| - 1;
      assert (s + t)[..|s + t| - 1] == s + t[..n];
      OnlyDigitsJoin(s, t[..n]);
    }
  }

  lemma {:induction false} OnlyDigitsOf(s: string, digits: bool)
    requires forall i :: 0 <= i < |s| ==> IsDigit(s[i]) == digits
    ensures OnlyDigits(s) == if digits then s else ""
  {
    hide IsDigit;
    if s != "" {
      var n := |s| - 1;
      assert forall i :: 0 <= i < n ==> s[..n][i] == s[i];
      OnlyDigitsOf(s[..n], digits);
      assert s == s[..n] + [s[n]];
    }
  }

  /** Removing the separators gives the plain digits back, and there is one for every three
      digits after the first. */
  lemma {:induction false} SeparatedIsPlain(s: string, sep: string)
    requires |s| >= 1
    requires forall i :: 0 <= i < |s| ==> IsDigit(s[i])
    requires forall i :: 0 <= i < |sep| ==> !IsDigit(sep[i])
    ensures OnlyDigits(Separated(s, sep)) == s
  {
    hide OnlyDigits, Separated;
    SeparatedUnfold(s, sep);
    if |s| <= 3 {
      OnlyDigitsOf(s, true);
    } else {
      var n := |s| - 3;
      SeparatedIsPlain(s[..n], sep);
      OnlyDigitsJoin(Separated(s[..n], sep) + sep, s[n..]);
      OnlyDigitsJoin(Separated(s[..n], sep), sep);
      OnlyDigitsOf(sep, false);
      OnlyDigitsOf(s[n..], true);
      assert s == s[..n] + s[n..];
    }
  }

  lemma {:induction false} SeparatedLength(s: string, sep: string)
    requires |s| >= 1
    ensures |Separated(s, sep)| == |s| + ((|s| - 1) / 3) * |sep|
  {
    if |s| > 3 {
      var n := |s| - 3;
      SeparatedLength(s[..n], sep);
      Distribute(|sep|, (n - 1) / 3, 1);
      assert (|s| - 1) / 3 == (n - 1) / 3 + 1;
    }
  }

  /** The character at each place, counted from the end: after every three digits a separator. */
  lemma {:induction false} SeparatedAt(s: string, c: char, i: nat)
    requires |s| >= 1 && i < |Separated(s, [c])|
    ensures i - i / 4 < |s| || i % 4 == 3
    ensures Separated(s, [c])[|Separated(s, [c])| - 1 - i] == if i % 4 == 3 then c else s[|s| - 1 - (i - i / 4)]
    decreases |s|
  {
    hide Separated;
    SeparatedUnfold(s, [c]);
    if |s| > 3 {
      var n := |s| - 3;
      var t := Separated(s[..n], [c]);
      var all := t + [c] + s[n..];
      if i >= 4 {
        SeparatedAt(s[..n], c, i - 4);
        assert all[|all| - 1 - i] == t[|t| - 1 - (i - 4)];
        FourFewer(i);
      } else {
        assert all[|t|] == c && all[|t| + 1..] == s[n..];
      }
    }
  }

  lemma FourFewer(i: nat)
    requires i >= 4
    ensures (i - 4) % 4 == i % 4 && (i - 4) - (i - 4) / 4 == i - i / 4 - 3
  {
  }

  /** What is still to be written when `i` digits have been written and those of `s` are left. */
  function Left(s: string, sep: string, i: nat): string {
    if s == "" then ""
    else
      var n := |s| - 1;
      Left(s[..n], sep, i + 1) + (if n > 0 && (i + 1) % 3 == 0 then sep else "") + [s[n]]
  }

  lemma LeftUnfold(s: string, sep: string, i: nat)
    ensures s == "" ==> Left(s, sep, i) == ""
    ensures s != "" ==>
      var n := |s| - 1;
      Left(s, sep, i) == Left(s[..n], sep, i + 1) + (if n > 0 && (i + 1) % 3 == 0 then sep else "") + [s[n]]
  {
  }

  lemma {:induction false} LeftRepeats(s: string, sep: string, i: nat)
    ensures Left(s, sep, i + 3) == Left(s, sep, i)
  {
    if s != "" { LeftRepeats(s[..|s| - 1], sep, i + 1); }
  }

  /** Counting digits as they are written groups them from the right. */
  lemma {:induction false} LeftIsSeparated(s: string, sep: string)
    ensures Left(s, sep, 0) == Separated(s, sep)
  {
    hide Left, Separated;
    SeparatedUnfold(s, sep);
    if |s| > 3 {
      var n := |s| - 3;
      var s1, s2, s3 := s[..n + 2], s[..n + 1], s[..n];
      assert s1[..n + 1] == s2 && s2[..n] == s3;
      LeftUnfold(s, sep, 0);
      LeftUnfold(s1, sep, 1);
      LeftUnfold(s2, sep, 2);
      LeftRepeats(s3, sep, 0);
      LeftIsSeparated(s3, sep);
      assert Left(s, sep, 0) == Left(s1, sep, 1) + [s[n + 2]];
      assert Left(s1, sep, 1) == Left(s2, sep, 2) + [s[n + 1]];
      assert Left(s2, sep, 2) == Left(s3, sep, 3) + sep + [s[n]];
      assert s[n..] == [s[n]] + [s[n + 1]] + [s[n + 2]];
    } else {
      LeftOfFew(s, sep, 0);
    }
  }

  lemma {:induction false} LeftOfFew(s: string, sep: string, i: nat)
    requires i + |s| <= 3
    ensures Left(s, sep, i) == s
  {
    hide Left;
    LeftUnfold(s, sep, i);
    if s != "" {
      LeftOfFew(s[..|s| - 1], sep, i + 1);
      assert s == s[..|s| - 1] + [s[|s| - 1]];
    }
  }

  // Printing

  // The table of two-digit numbers, in lines of ten.
  const DECADE_0 := "00010203040506070809"
  const DECADE_1 := "10111213141516171819"
  const DECADE_2 := "20212223242526272829"
  const DECADE_3 := "30313233343536373839"
  const DECADE_4 := "40414243444546474849"
  const DECADE_5 := "50515253545556575859"
  const DECADE_6 := "60616263646566676869"
  const DECADE_7 := "70717273747576777879"
  const DECADE_8 := "80818283848586878889"
  const DECADE_9 := "90919293949596979899"

  const FORMAT_UINT_DIGITS: string :=
    DECADE_0 + DECADE_1 + DECADE_2 + DECADE_3 + DECADE_4
    + DECADE_5 + DECADE_6 + DECADE_7 + DECADE_8 + DECADE_9

  /** One line: the numbers from `10 * t` on. */
  function Line(t: nat): (s: string)
    requires t < 10
    ensures |s| == 20
  {
    var c := '0' + t as char;
    [c, '0', c, '1', c, '2', c, '3', c, '4', c, '5', c, '6', c, '7', c, '8', c, '9']
  }

  lemma LineDigits(t: nat, k: nat)
    requires t < 10 && k < 10
    ensures Line(t)[2 * k] == DigitChar(t, false) && Line(t)[2 * k + 1] == DigitChar(k, false)
  {
  }

  lemma Lines()
    ensures DECADE_0 == Line(0) && DECADE_1 == Line(1) && DECADE_2 == Line(2) && DECADE_3 == Line(3)
    ensures DECADE_4 == Line(4) && DECADE_5 == Line(5) && DECADE_6 == Line(6) && DECADE_7 == Line(7)
    ensures DECADE_8 == Line(8) && DECADE_9 == Line(9)
  {
  }

  /** The first `t` lines of the table. */
  ghost predicate Covers(s: string, t: nat)
    requires t <= 10
  {
    && |s| == 20 * t
    && (forall i :: 0 <= i < 10 * t ==>
          s[2 * i] == DigitChar(i / 10, false) && s[2 * i + 1] == DigitChar(i % 10, false))
  }

  lemma Extend(s: string, t: nat)
    requires t < 10 && Covers(s, t)
    ensures Covers(s + Line(t), t + 1)
  {
    hide Line, DigitChar;
    var s' := s + Line(t);
    forall i | 0 <= i < 10 * (t + 1)
      ensures s'[2 * i] == DigitChar(i / 10, false) && s'[2 * i + 1] == DigitChar(i % 10, false)
    {
      if i >= 10 * t { LineDigits(t, i - 10 * t); }
    }
  }

  lemma TableCovers()
    ensures Covers(FORMAT_UINT_DIGITS, 10)
  {
    Lines();
    assert Covers("", 0);
    hide Covers, Line;
    assert "" + DECADE_0 == DECADE_0;
    Extend("", 0);
    var s1 := Line(0);
    Extend(s1, 1);
    var s2 := s1 + Line(1);
    Extend(s2, 2);
    var s3 := s2 + Line(2);
    Extend(s3, 3);
    var s4 := s3 + Line(3);
    Extend(s4, 4);
    var s5 := s4 + Line(4);
    Extend(s5, 5);
    var s6 := s5 + Line(5);
    Extend(s6, 6);
    var s7 := s6 + Line(6);
    Extend(s7, 7);
    var s8 := s7 + Line(7);
    Extend(s8, 8);
    var s9 := s8 + Line(8);
    Extend(s9, 9);
  }

  /** The first of the two digits at `2 * i` in the table. */
  function HighDigit(i: nat): (c: char)
    requires i < 100
    ensures c == DigitChar(i / 10, false)
  {
    TableCovers();
    FORMAT_UINT_DIGITS[2 * i]
  }

  /** The second one. */
  function LowDigit(i: nat): (c: char)
    requires i < 100
    ensures c == DigitChar(i % 10, false)
  {
    TableCovers();
    FORMAT_UINT_DIGITS[2 * i + 1]
  }

  /** What the last digit of `v` adds to the text. */
  lemma LastDigit(v: nat, sep: string, i: nat)
    ensures v >= 10 ==>
      Left(Text(v, 10, false), sep, i) == Left(Text(v / 10, 10, false), sep, i + 1)
        + (if (i + 1) % 3 == 0 then sep else "") + [DigitChar(v % 10, false)]
    ensures v < 10 ==> Left(Text(v, 10, false), sep, i) == [DigitChar(v, false)]
  {
    var t := Text(v, 10, false);
    if v >= 10 {
      assert t[..|t| - 1] == Text(v / 10, 10, false);
    } else {
      assert t[..0] == "";
    }
  }

  /** A separator before every third digit. */
  function SeparatorAfter(i: nat, sep: string): string {
    if i % 3 == 0 then sep else ""
  }

  /** `*--buffer = c`, and the separator in front of it when the digit completes a group. */
  method PutDigit(buffer: array<char>, at: nat, digitIndex: nat, c: char, sep: string)
    returns (at': nat, digitIndex': nat)
    requires |SeparatorAfter(digitIndex + 1, sep)| + 1 <= at <= buffer.Length
    modifies buffer
    ensures digitIndex' == digitIndex + 1
    ensures at' == at - 1 - |SeparatorAfter(digitIndex + 1, sep)|
    ensures buffer[at'..at] == SeparatorAfter(digitIndex + 1, sep) + [c]
    ensures buffer[..at'] == old(buffer[..at']) && buffer[at..] == old(buffer[at..])
  {
    at' := at - 1;
    buffer[at'] := c;
    digitIndex' := digitIndex + 1;
    if digitIndex' % 3 == 0 {
      at' := at' - |sep|;
      forall k | 0 <= k < |sep| { buffer[at' + k] := sep[k]; }
    }
    assert buffer[at'..at] == SeparatorAfter(digitIndex + 1, sep) + [c];
  }

  /** Only what lies between `at` and `size` differs. */
  ghost predicate Framed(before: string, now: string, at: nat, size: nat) {
    && at <= size <= |before| == |now|
    && now[..at] == before[..at] && now[size..] == before[size..]
  }

  lemma FramedTwice(s0: string, s1: string, s2: string, at1: nat, at2: nat, size: nat)
    requires at2 <= at1 && Framed(s0, s1, at1, size) && Framed(s1, s2, at2, size)
    ensures Framed(s0, s2, at2, size)
  {
    assert s1[..at2] == s1[..at1][..at2] && s0[..at2] == s0[..at1][..at2];
  }

  /** The text written so far is the end of `t`; what is left of it fits in front. */
  ghost predicate Written(buffer: array<char>, at: nat, size: nat, left: string, t: string)
    reads buffer
  {
    at <= size <= buffer.Length && left + buffer[at..size] == t && |t| <= size
  }

  /** Writing one more digit, or the last one. */
  lemma OneMoreDigit(v: nat, sep: string, i: nat, was: string, t: string)
    requires Left(Text(v, 10, false), sep, i) + was == t
    ensures v >= 10 ==>
      Left(Text(v / 10, 10, false), sep, i + 1)
        + (SeparatorAfter(i + 1, sep) + [DigitChar(v % 10, false)] + was) == t
    ensures v < 10 ==> [DigitChar(v, false)] + was == t
  {
    LastDigit(v, sep, i);
    hide Left, Text;
    if v >= 10 {
      var rest := Left(Text(v / 10, 10, false), sep, i + 1);
      var d := [DigitChar(v % 10, false)];
      assert rest + SeparatorAfter(i + 1, sep) + d + was == rest + (SeparatorAfter(i + 1, sep) + d + was);
    }
  }

  /** A step of `format_uint_decimal`: the last digit of `v`, which has more than one. */
  method PutLastDigit(buffer: array<char>, at: nat, digitIndex: nat, v: nat, c: char, sep: string, size: nat,
                      ghost t: string)
    returns (at': nat, digitIndex': nat)
    requires v >= 10 && c == DigitChar(v % 10, false)
    requires Written(buffer, at, size, Left(Text(v, 10, false), sep, digitIndex), t)
    modifies buffer
    ensures digitIndex' == digitIndex + 1 && at' <= at
    ensures Written(buffer, at', size, Left(Text(v / 10, 10, false), sep, digitIndex'), t)
    ensures Framed(old(buffer[..]), buffer[..], at', size)
  {
    hide Left, Text, SeparatorAfter, DigitChar;
    ghost var was := buffer[at..size];
    OneMoreDigit(v, sep, digitIndex, was, t);
    at', digitIndex' := PutDigit(buffer, at, digitIndex, c, sep);
    assert buffer[at'..size] == buffer[at'..at] + was by {
      assert buffer[at..size] == buffer[at..][..size - at] == was;
    }
    assert buffer[size..] == buffer[at..][size - at..];
  }

  /** The body of the loop: two digits. */
  method PutTwoDigits(buffer: array<char>, at: nat, digitIndex: nat, v: nat, sep: string, size: nat, ghost t: string)
    returns (at': nat, digitIndex': nat)
    requires v >= 100
    requires Written(buffer, at, size, Left(Text(v, 10, false), sep, digitIndex), t)
    modifies buffer
    ensures at' <= at
    ensures Written(buffer, at', size, Left(Text(v / 100, 10, false), sep, digitIndex'), t)
    ensures Framed(old(buffer[..]), buffer[..], at', size)
  {
    hide Left, Text, DigitChar, Written, Framed, HighDigit, LowDigit;
    Pairs(v);
    ghost var s0 := buffer[..];
    at', digitIndex' := PutLastDigit(buffer, at, digitIndex, v, LowDigit(v % 100), sep, size, t);
    ghost var s1, at1 := buffer[..], at';
    at', digitIndex' := PutLastDigit(buffer, at', digitIndex', v / 10, HighDigit(v % 100), sep, size, t);
    FramedTwice(s0, s1, buffer[..], at1, at', size);
  }

  /** What is left of the text when no digit is. */
  lemma AllWritten(buffer: array<char>, value: nat, size: nat, sep: string)
    requires |Separated(Text(value, 10, false), sep)| <= size <= buffer.Length
    ensures Written(buffer, size, size, Left(Text(value, 10, false), sep, 0), Separated(Text(value, 10, false), sep))
    ensures Framed(buffer[..], buffer[..], size, size)
  {
    hide Left, Text, Separated;
    LeftIsSeparated(Text(value, 10, false), sep);
  }

  /** `format_uint_decimal`. */
  method FormatUintDecimal(buffer: array<char>, value: nat, formattedSize: nat, sep: string) returns (at: nat)
    requires |Separated(Text(value, 10, false), sep)| <= formattedSize <= buffer.Length
    modifies buffer
    ensures at == formattedSize - |Separated(Text(value, 10, false), sep)|
    ensures buffer[at..formattedSize] == Separated(Text(value, 10, false), sep)
    ensures Framed(old(buffer[..]), buffer[..], at, formattedSize)
  {
    hide Left, Text, Separated, DigitChar, Written, Framed, HighDigit, LowDigit;
    ghost var t, s0 := Separated(Text(value, 10, false), sep), buffer[..];
    AllWritten(buffer, value, formattedSize, sep);
    var digitIndex, v := 0, value;
    at := formattedSize;
    while v >= 100
      invariant Written(buffer, at, formattedSize, Left(Text(v, 10, false), sep, digitIndex), t)
      invariant Framed(s0, buffer[..], at, formattedSize)
    {
      ghost var s1, at1 := buffer[..], at;
      at, digitIndex := PutTwoDigits(buffer, at, digitIndex, v, sep, formattedSize, t);
      FramedTwice(s0, s1, buffer[..], at1, at, formattedSize);
      v := v / 100;
    }
    ghost var s1, at1 := buffer[..], at;
    if v < 10 {
      DecimalChar(v);
      at := PutFirstDigit(buffer, at, digitIndex, v, '0' + v as char, sep, formattedSize, t);
    } else {
      at, digitIndex := PutLastDigit(buffer, at, digitIndex, v, LowDigit(v), sep, formattedSize, t);
      FramedTwice(s0, s1, buffer[..], at1, at, formattedSize);
      s1, at1 := buffer[..], at;
      at := PutFirstDigit(buffer, at, digitIndex, v / 10, HighDigit(v), sep, formattedSize, t);
    }
    FramedTwice(s0, s1, buffer[..], at1, at, formattedSize);
  }

  lemma DecimalChar(d: nat)
    requires d < 10
    ensures DigitChar(d, false) == '0' + d as char
  {
  }

  lemma Pairs(v: nat)
    ensures v % 100 % 10 == v % 10 && v % 100 / 10 == v / 10 % 10 && v / 10 / 10 == v / 100
  {
  }

  method PutFirstDigit(buffer: array<char>, at: nat, digitIndex: nat, v: nat, c: char, sep: string, size: nat,
                       ghost t: string)
    returns (at': nat)
    requires v < 10 && c == DigitChar(v, false)
    requires Written(buffer, at, size, Left(Text(v, 10, false), sep, digitIndex), t)
    modifies buffer
    ensures at' <= at && at' == size - |t| && buffer[at'..size] == t
    ensures Framed(old(buffer[..]), buffer[..], at', size)
  {
    hide Left, Text, DigitChar;
    ghost var was := buffer[at..size];
    OneMoreDigit(v, sep, digitIndex, was, t);
    at' := at - 1;
    buffer[at'] := c;
    assert buffer[at'..size] == [c] + was;
  }

  /** The bases printed by shifting: 2, 8 and 16. */
  function BaseOf(bits: nat): (b: nat)
    requires bits == 1 || bits == 3 || bits == 4
    ensures b == Pow(2, bits) && 2 <= b <= 16
  {
    Pow2Small();
    if bits == 1 then 2 else if bits == 3 then 8 else 16
  }

  const LOWER_DIGITS: string := "0123456789abcdef"
  const UPPER_DIGITS: string := "0123456789ABCDEF"

  /** The character chosen by `format_uint_base`. */
  function BaseDigit(bits: nat, digit: nat, upper: bool): (c: char)
    requires bits == 1 || bits == 3 || bits == 4
    requires digit < BaseOf(bits)
    ensures c == DigitChar(digit, upper)
  {
    if bits < 4 then '0' + digit as char
    else if upper then UPPER_DIGITS[digit]
    else LOWER_DIGITS[digit]
  }

  lemma OneMoreBaseDigit(v: nat, base: nat, upper: bool, was: string, t: string)
    requires 2 <= base <= 36 && Text(v, base, upper) + was == t
    ensures v / base != 0 ==> Text(v / base, base, upper) + ([DigitChar(v % base, upper)] + was) == t
    ensures v / base == 0 ==> [DigitChar(v % base, upper)] + was == t
  {
    if v < base {
      DivModUnique(v, base, 0, v);
    } else {
      QuotientBounds(v, base);
      var d := [DigitChar(v % base, upper)];
      assert Text(v / base, base, upper) + d + was == Text(v / base, base, upper) + (d + was);
    }
  }

  /** `format_uint_base`. */
  method FormatUintBase(bits: nat, buffer: array<char>, value: nat, formattedSize: nat, upper: bool)
    returns (at: nat)
    requires bits == 1 || bits == 3 || bits == 4
    requires |Text(value, BaseOf(bits), upper)| <= formattedSize <= buffer.Length
    modifies buffer
    ensures at == formattedSize - |Text(value, BaseOf(bits), upper)|
    ensures buffer[at..formattedSize] == Text(value, BaseOf(bits), upper)
    ensures Framed(old(buffer[..]), buffer[..], at, formattedSize)
  {
    hide Text, DigitChar, BaseDigit, BaseOf, Pow;
    ghost var base := BaseOf(bits);
    ghost var t := Text(value, base, upper);
    var v: nat, more := value, true;
    at := formattedSize;
    while more
      invariant at <= formattedSize
      invariant (if more then Text(v, base, upper) else "") + buffer[at..formattedSize] == t
      invariant buffer[..at] == old(buffer[..at])
      invariant buffer[formattedSize..] == old(buffer[formattedSize..])
      decreases more, v
    {
      ghost var was := buffer[at..formattedSize];
      OneMoreBaseDigit(v, base, upper, was, t);
      QuotientBounds(v, base);
      var digit: nat := v % Pow(2, bits);
      at := at - 1;
      buffer[at] := BaseDigit(bits, digit, upper);
      assert buffer[at..formattedSize] == [DigitChar(digit, upper)] + was;
      v := v / Pow(2, bits);
      more := v != 0;
    }
  }

  /** `count_digits<Bits>`. */
  method CountDigitsBits(bits: nat, value: nat, ghost upper: bool) returns (numDigits: nat)
    requires bits == 1 || bits == 3 || bits == 4
    ensures numDigits == |Text(value, BaseOf(bits), upper)|
  {
    hide Text, BaseOf, Pow;
    ghost var base := BaseOf(bits);
    var n: nat, more := value, true;
    numDigits := 0;
    while more
      invariant numDigits + (if more then |Text(n, base, upper)| else 0) == |Text(value, base, upper)|
      decreases more, n
    {
      OneMoreBaseDigit(n, base, upper, "", Text(n, base, upper) + "");
      QuotientBounds(n, base);
      numDigits := numDigits + 1;
      n := n / Pow(2, bits);
      more := n != 0;
    }
  }

  datatype Kind = Decimal | Separate | Binary | Octal | Hexadecimal

  const COMMA: string := ","

  /** What is to be printed for a kind. */
  function Formatted(value: nat, kind: Kind, upper: bool): string {
    match kind
    case Decimal => Text(value, 10, false)
    case Separate => Separated(Text(value, 10, false), COMMA)
    case Binary => Text(value, 2, false)
    case Octal => Text(value, 8, false)
    case Hexadecimal => Text(value, 16, upper)
  }

  lemma DecimalSize(value: nat)
    requires value < TWO64
    ensures |Text(value, 10, false)| == (if value == 0 then 1 else CountDigits(value)) <= 20
  {
    hide Pow;
    CountDigitsExact(value);
    if value > 0 {
      TextLength(value, 10, false, CountDigits(value));
    }
  }

  lemma {:induction false} FitsIn(v: nat, base: nat, upper: bool, n: nat)
    requires 2 <= base <= 36 && n >= 1 && v < Pow(base, n)
    ensures |Text(v, base, upper)| <= n
    decreases n
  {
    if v >= base {
      PowUnfold(base, 0);
      hide Pow;
      PowUnfold(base, n - 1);
      MulMono(0, v, 1);
      QuotientBetween(v, base, 0, Pow(base, n - 1));
      FitsIn(v / base, base, upper, n - 1);
    }
  }

  lemma PowUnfold(base: nat, n: nat)
    ensures Pow(base, n + 1) == base * Pow(base, n) && Pow(base, 0) == 1
  {
  }

  lemma {:induction false} PowBaseMonotone(a: nat, b: nat, n: nat)
    requires a <= b
    ensures Pow(a, n) <= Pow(b, n)
  {
    if n > 0 {
      PowBaseMonotone(a, b, n - 1);
      MulMono(Pow(a, n - 1), Pow(b, n - 1), a);
      MulMono(a, b, Pow(b, n - 1));
    }
  }

  /** The digits of `write_u64`, without prefix and padding. Written from the end of the size
      computed for them they begin at 0, and that size never exceeds the buffer of 65 characters. */
  method WriteDigits(value: nat, kind: Kind, upper: bool)
    returns (text: string, at: nat, formattedSize: nat, room: nat)
    requires value < TWO64
    ensures text == Formatted(value, kind, upper)
    ensures InCase(text, kind == Hexadecimal && upper)
    ensures at == 0 && formattedSize == |text| && 1 <= formattedSize <= room == 65
  {
    hide Text, Separated, BaseOf, Framed;
    var numDigits;
    var bits := match kind case Binary => 1 case Octal => 3 case _ => 4;
    if kind == Decimal || kind == Separate {
      numDigits := CountDigits(value);
    } else {
      numDigits := CountDigitsBits(bits, value, kind == Hexadecimal && upper);
    }
    if value == 0 { numDigits := 1; }
    SizesFit(value, bits, kind == Hexadecimal && upper);
    FormattedInCase(value, kind, upper);
    formattedSize := numDigits;
    if kind == Separate { formattedSize := formattedSize + (numDigits - 1) / 3; }
    var buffer := new char[65](_ => 0 as char);
    room := buffer.Length;
    if kind == Decimal {
      SeparatedByNothing(Text(value, 10, false));
      at := FormatUintDecimal(buffer, value, numDigits, "");
    } else if kind == Separate {
      numDigits := formattedSize;
      at := FormatUintDecimal(buffer, value, formattedSize, COMMA);
    } else {
      at := FormatUintBase(bits, buffer, value, numDigits, kind == Hexadecimal && upper);
    }
    text := buffer[at..numDigits];
  }

  /** The size that `write_u64` computes from prefix, width and precision, before any separators. */
  function PaddedSize(numDigits: nat, prefixLength: nat, numeric: bool, width: int, precision: int): nat {
    var size := prefixLength + numDigits;
    if numeric then (if width > size then width else size)
    else if precision > numDigits then prefixLength + precision
    else size
  }

  /** The n form with prefix and padding: alone it is written from the end of the whole size, so the
      buffer of 65 characters has to hold that. It does exactly while neither width nor precision
      leave more than the separators out. */
  method WriteGrouped(value: nat, prefixLength: nat, numeric: bool, width: int, precision: int)
    returns (text: string, formattedSize: nat, fits: bool)
    requires value < TWO64 && prefixLength <= 4
    ensures fits <==>
      (if numeric then width else prefixLength + precision) + (|Text(value, 10, false)| - 1) / 3 <= 65
    ensures fits ==> text == Formatted(value, Separate, false)
    ensures formattedSize >= prefixLength + |Formatted(value, Separate, false)|
    ensures var digits, separators := |Text(value, 10, false)|, (|Text(value, 10, false)| - 1) / 3;
      if (if numeric then width <= prefixLength + digits else precision <= digits)
      then formattedSize == prefixLength + digits + separators
      else formattedSize == (if numeric then width else prefixLength + precision) + separators
  {
    hide Text, Separated, Framed;
    SizesFit(value, 4, false);
    var numDigits := CountDigits(value);
    if value == 0 { numDigits := 1; }
    formattedSize := PaddedSize(numDigits, prefixLength, numeric, width, precision);
    formattedSize := formattedSize + (numDigits - 1) / 3;
    var buffer := new char[65](_ => 0 as char);
    fits := formattedSize <= buffer.Length;
    text := "";
    if fits {
      var at := FormatUintDecimal(buffer, value, formattedSize, COMMA);
      text := buffer[at..formattedSize];
    }
  }

  /** The n form is grouped by commas. */
  lemma CommasInPlace(value: nat, i: nat)
    requires i < |Formatted(value, Separate, false)|
    ensures var t := Formatted(value, Separate, false);
      t[|t| - 1 - i] == ',' <==> i % 4 == 3
  {
    hide Separated, Text;
    var s := Text(value, 10, false);
    SeparatedAt(s, ',', i);
    DigitsOnly(value);
  }

  lemma {:induction false} DigitsOnly(v: nat)
    ensures forall i :: 0 <= i < |Text(v, 10, false)| ==> IsDigit(Text(v, 10, false)[i])
    decreases v
  {
    if v >= 10 {
      DigitsOnly(v / 10);
    }
  }

  lemma FormattedInCase(value: nat, kind: Kind, upper: bool)
    ensures InCase(Formatted(value, kind, upper), kind == Hexadecimal && upper)
  {
    hide Text, Separated;
    TextInCase(value, 2, false);
    TextInCase(value, 8, false);
    TextInCase(value, 10, false);
    TextInCase(value, 16, upper);
    SeparatedInCase(Text(value, 10, false), COMMA, false);
  }

  lemma {:induction false} SeparatedByNothing(s: string)
    ensures Separated(s, "") == s
  {
    if |s| > 3 {
      SeparatedByNothing(s[..|s| - 3]);
      assert s == s[..|s| - 3] + "" + s[|s| - 3..];
    }
  }

  lemma SizesFit(value: nat, bits: nat, upper: bool)
    requires value < TWO64 && (bits == 1 || bits == 3 || bits == 4)
    ensures |Text(value, 10, false)| == (if value == 0 then 1 else CountDigits(value)) <= 20
    ensures |Separated(Text(value, 10, false), COMMA)| == |Text(value, 10, false)| + (|Text(value, 10, false)| - 1) / 3
    ensures |Text(value, BaseOf(bits), upper)| <= 64
    ensures value == 0 ==> |Text(value, BaseOf(bits), upper)| == 1
    ensures BaseOf(1) == 2 && BaseOf(3) == 8 && BaseOf(4) == 16
  {
    hide Pow, Separated, CountDigits;
    DecimalSize(value);
    SeparatedLength(Text(value, 10, false), COMMA);
    Pow2Word();
    PowBaseMonotone(2, BaseOf(bits), 64);
    FitsIn(value, BaseOf(bits), upper, 64);
  }
}
