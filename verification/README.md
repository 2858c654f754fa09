# Verified model of the lstd library's core algorithms

The Dafny modules here model the parts of the C++ library that carry its hardest invariants, and
prove what the code, its comments and its assertions promise of them.

- **Big integers** (`BigDigits` to `BigBitwise`, over `Powers` and `IntegerDivision`):
  sign-magnitude numbers in base 2^30. The class `BigInteger` has the fields of the structure, and
  the methods write its digit buffer in place: carry and borrow loops, grade-school multiplication
  and squaring, Karatsuba with its lopsided driver, Knuth's Algorithm D, shifts, and the bitwise
  operators. All of them are proved against the integers, `V(digits)` being the number a digit
  vector stands for and `Lift(v, n)` being `v * BASE^n`.
- **128-bit integers** (`Int128`, `Int128Div`): shifts, sums, products and the division by
  normalized estimates, on two 64-bit words with every wrap-around written out.
- **Digits** (`DecimalDigits`, `GrisuDigits`, `TrailingZeros`, `PrintParse`, `ParseInt`): counting
  digits, Grisu's digit generation with its error interval, divisibility by powers of five and zero
  stripping through modular inverses, and printing against parsing.
- **Containers and algorithms** (`QuickSort`, `HashTable`, `PoolAllocator`, `ExponentialArray`,
  `ReplaceAll`): the iterative quicksort and its stack, the open-addressing table and its growth,
  the pool's free list in memory, the exponential array with the string builder, and replacing all
  occurrences of a subarray.

`dafny verify dfyconfig.toml` checks the whole project.

## How the code is read

- Unsigned words are integers with explicit remainders where the code can wrap around. A mask with
  low ones is a remainder, a right shift a quotient by a power of two, and `hash & (n - 1)` for a
  power of two `n` the remainder by `n`. In the shifts of big integers `|` of words without common
  bits is their sum; `Bits.OrDisjoint` is the proof of that step for words.
- Sizes, counts and indices are unbounded unless a limit matters; the limits that matter are stated
  (array lengths below 2^63 in `QuickSort`, 2^31 elements in `ExponentialArray`).
- An allocation always succeeds and gives fresh memory. A block may be longer than what was asked
  for, so that `realloc` can lengthen it in place; whether it does is left open, and a block it moves
  is reported as released. A released block is taken to keep its digits.
- `memcpy` between overlapping parts of one array moves the elements correctly
  (`src/lstd/memory.cpp:20-34`).
- A buffer that two structures share is one Dafny array: `BigInteger.CopyOf` shares an allocated
  buffer exactly when the copied structure does.
- A method that stands for code writing through a pointer returns the value instead where nothing
  else depends on the pointer (`*r` in the divisions, `*n` in the zero stripping).

## Where the code and its comments differ

- `compare` (`include/lstd/big_integer.h:1227-1243`) computes the difference of the digits but does
  not use it, and truncates the difference of the sizes to 32 bits. `BigIntegers.OrdersRight` is the
  exact condition under which its sign is right; `BigIntegers.EqualNumbersDiffer` and
  `BigIntegers.SizesOrderFails` are inputs for which it is not. `==` is therefore never true for
  equal numbers other than zero (`BigIntegers.AreEqual`); the squaring behind it is proved for every
  number all the same.
- `lshift` by zero returns a structure with the same block (`include/lstd/big_integer.h:1100`), so
  `x_divrem` works in the dividend's own digits when the divisor's top bit is set
  (`BigDiv.Borrows`). When the block is full and the top digit of the dividend is not below that of
  the divisor (`BigDiv.Grows`), it goes to `realloc`, which grows it in place
  (`src/lstd/memory.cpp:624-666`), so that it is overwritten as well, or releases it.
- `x / x` gives 1 and `x % x` gives 0, but if the division works in the block of `x`, the digits of
  `x` are all zero afterwards. A longer dividend that shares the block is overwritten together with
  its divisor. If the loop turns only once, the division comes out exactly if `BigDiv.ComesOut`
  holds; `BigDiv.LongerSharedQuotient` is an input for which it does not.
- `ensure_digits` asserts that it is asked for at least one digit
  (`include/lstd/big_integer.h:229`). Two operators break this. A division does exactly if the
  shifted dividend is as long as the divisor with a smaller top digit (`BigOperators.AsksForNone`,
  through `BigDiv.TopBelow`), for instance 2^30 / (2^30 + 2); the bitwise operators do exactly if
  both operands are zero. Every method that may ask for none says when it does (`asserted`), and
  what it computes when assertions are off.
- `rshift` of a negative number by more than zero calls itself on its inverse, which is negative
  too (`include/lstd/big_integer.h:1079-1097` and `:1148-1150`), so it never returns
  (`BigShift.NestedStaysNegative`).
- `/` truncates and `%` floors, so `a / b * b + a % b` is not always `a`
  (`BigOperators.OperatorsMatch`).
- `count_digits` says it returns 1 for zero (`include/lstd/bits.h:168-169`); it returns 0, because
  the correction wraps around. `write_u64` replaces that 0 (`src/lstd/fmt/write.cpp:369-372`), which
  is why `PrintParse.WriteDigits` holds for zero as well.
- `search_prehashed` does not move the hashes 0 and 1 up as `add_prehashed` does, so what is added
  under them is not found under them (`HashTable.AddThenSearch`). `add_prehashed` does not look for
  the pair it adds, and a second entry stays behind the first (`HashTable.SecondEntryHidden`).
  `Count` and `SlotsFilled` are not reset on growing: they are right for up to 19 pairs, and too
  large from the second growth on (`HashTable.CountIsRight`).
- A failed `parse_int` consumes the invalid character, although the result is documented to keep it
  (`include/lstd/parse.h:186-190` and `:238-256`); at the end of the input it steps one past it.
- `i128_divmod` is truncating division except for the smallest number by -1, where it wraps around.

## Model

| member | source | states |
|---|---|---|
| BigIntegers.BigInteger.WithRoom | include/lstd/big_integer.h:255-265 | a new number for at least one digit has the room asked for, all digits zero, size 0, and uses the inline buffer for up to two digits |
| BigIntegers.BigInteger.Inline | include/lstd/big_integer.h:62-76 | the structure as it is initialized: zero, with the inline buffer |
| BigIntegers.MakeRoom | include/lstd/big_integer.h:228-259 | room for n digits, all zero; the assertion of ensure_digits holds exactly if n is not 0, and without it the inline buffer is left |
| BigIntegers.BigInteger.CopyOf | include/lstd/big_integer.h:62-76 | copying the structure copies the inline buffer but shares an allocated one |
| BigIntegers.BigInteger.EnsureDigits | include/lstd/big_integer.h:228-248 | there is room for the n > 0 digits asserted; the digits in use are the same and the new ones zero; a block too short grows in place or moves, as realloc pleases, and any other stays |
| BigIntegers.BigInteger.MaybeSmall | include/lstd/big_integer.h:188-201 | up to two digits go back to the inline buffer and the number does not change |
| BigIntegers.BigInteger.Normalize | include/lstd/big_integer.h:267-275 | no zero digit is left at the top, only zeros were dropped, the value and the sign stay, zero has size 0, and no block is kept for two digits |
| BigIntegers.RoomOfMakeBig | include/lstd/big_integer.h:290-319 | one digit is asked for whatever the integer, and the digits written fit in the inline buffer if and only if its magnitude is below 2^60 |
| BigIntegers.MakeBig | include/lstd/big_integer.h:277-324 | the number made from an integer of magnitude below 2^60 has that value, in normal form |
| BigIntegers.Compare | include/lstd/big_integer.h:1227-1243 | zero is answered exactly if the first number is zero and the 32-bit size of the second is zero; the sign of the answer is that of the difference if and only if, for equal sizes, both are zero or the first magnitude is larger, and for different sizes the low 32 bits of their difference tell its sign |
| BigIntegers.SizesOrderWhenClose | include/lstd/big_integer.h:1227-1243 | sizes less than 2^31 apart are always ordered right |
| BigIntegers.SizesOrderFails | include/lstd/big_integer.h:1227-1243 | sizes that are not |
| BigIntegers.AnswerForSizes | include/lstd/big_integer.h:1227-1243 | the sign answered for different sizes is that of their difference exactly if their low 32 bits tell it |
| BigIntegers.EqualNumbersDiffer | include/lstd/big_integer.h:1227-1243 | two numbers made from the same integer other than zero do not compare as equal |
| BigIntegers.AreEqual | include/lstd/big_integer.h:98-100 | true exactly if the first number is zero and the 32-bit size of the second is zero, so for two zeros and for no other equal numbers |
| BigIntegers.MagnitudeBounds | include/lstd/big_integer.h:17-37 | a normalized number of n digits lies in [BASE^(n-1), BASE^n) |
| BigIntegers.CompareBySize | include/lstd/big_integer.h:1227-1243 | normalized numbers with different signed sizes are ordered as their sizes are |
| BigDigits.TrimmedUnique | include/lstd/big_integer.h:267-275 | each number has exactly one normalized digit vector |
| BigDigits.VSplit | include/lstd/big_integer.h:554-578 | cutting a digit vector at k splits its value into low part plus high part times BASE^k |
| BigAddSub.VIAdd | include/lstd/big_integer.h:326-353 | adding y into a window of x: the new window is the old one plus y minus the returned carry at its top, and nothing outside changes |
| BigAddSub.VISub | include/lstd/big_integer.h:355-382 | subtracting y from a window of x: the new window is the old one minus y plus the returned borrow at its top, and nothing outside changes |
| BigAddSub.AddDigits | include/lstd/big_integer.h:396-414 | the digits written are those of the sum, the final carry included |
| BigAddSub.XAdd | include/lstd/big_integer.h:384-417 | the sum of the magnitudes, normalized and in no block that it does not need, with at most one digit more |
| BigAddSub.SubDigits | include/lstd/big_integer.h:449-466 | the digits written are those of the difference, and no borrow is left |
| BigAddSub.TopDifference | include/lstd/big_integer.h:434-440 | the highest differing digit decides the comparison, and the digits above it cancel |
| BigAddSub.XSub | include/lstd/big_integer.h:419-473 | the difference of the magnitudes with its sign, normalized and in no block that it does not need; equal digits at the top are cut off first |
| BigMul.MulRow | include/lstd/big_integer.h:524-543 | one row adds digit times y at its position, carry included |
| BigMul.GradeSchool | include/lstd/big_integer.h:521-544 | the product of the two digit vectors |
| BigMul.SquareRow | include/lstd/big_integer.h:487-520 | one row of HAC 14.16 adds the square of its digit and twice its products with the digits above, and the last carry does not leave its digit |
| BigMul.Square | include/lstd/big_integer.h:480-520 | the squaring branch computes the square of every digit vector |
| BigMul.MultiplyDigits | include/lstd/big_integer.h:480-545 | both branches write the product of the magnitudes over zero digits, the squaring one for every pair of equal numbers |
| BigMul.SquareCarry | include/lstd/big_integer.h:501-509 | the carry of the doubled products stays within twice MASK |
| BigMul.LastRowFits | include/lstd/big_integer.h:511-519 | the carry out of the last row has a digit to go to and fits in it |
| BigMul.XMul | include/lstd/big_integer.h:476-548 | the product of the magnitudes; at least one digit is asked for exactly if an operand is not zero |
| BigKaratsuba.KMulSplit | include/lstd/big_integer.h:554-578 | high and low halves put together give the magnitude; low has at most size digits; high is not empty when a normalized number is longer than size; both ask for digits exactly if 0 < size < length |
| BigKaratsuba.KaratsubaIdentity | include/lstd/big_integer.h:629-634 | three products give the product of the two numbers split at any position |
| BigKaratsuba.PlaceProducts | include/lstd/big_integer.h:702-725 | the high product at twice the shift, the low product at 0, zeros between and above |
| BigKaratsuba.SubtractProducts | include/lstd/big_integer.h:727-732 | both products are subtracted at the shift, modulo BASE^n |
| BigKaratsuba.AddMiddle | include/lstd/big_integer.h:746-792 | the middle product is added at the shift, modulo BASE^n |
| BigKaratsuba.WrapsCancel | include/lstd/big_integer.h:690-695 | a result that is exact up to multiples of BASE^n and has n digits is exact |
| BigKaratsuba.MiddleFits | include/lstd/big_integer.h:749-791 | the room argument: the product of the sums always fits in the digits left after the shift |
| BigKaratsuba.Karatsuba | include/lstd/big_integer.h:662-796 | the Karatsuba branch returns the product of the magnitudes |
| BigKaratsuba.KMulOfSums | include/lstd/big_integer.h:734-747 | the middle product is the product of the sums of the halves, and its recursion works on fewer digits |
| BigKaratsuba.KMul | include/lstd/big_integer.h:624-796 | k_mul returns the product of the magnitudes, terminating on the number of digits |
| BigKaratsuba.LopsidedSlice | include/lstd/big_integer.h:601-618 | each turn adds a times the next slice of b, which need not be normalized |
| BigKaratsuba.KLopsidedMul | include/lstd/big_integer.h:582-622 | the lopsided driver returns the product of the magnitudes |
| BigShift.LShift | include/lstd/big_integer.h:1099-1139 | the value times 2^n; a shift by zero of an allocated number shares its buffer |
| BigShift.RShiftDigitMeaning | include/lstd/big_integer.h:1155-1169 | each result digit is the shifted digit joined with the low bits of the next one |
| BigShift.RShift | include/lstd/big_integer.h:1141-1173 | the flooring quotient by 2^n, normalized, exactly if n is zero or the number is not negative; otherwise rshift never returns |
| BigShift.RShiftNonNegative | include/lstd/big_integer.h:1152-1171 | the quotient of a number that is not negative by 2^n, normalized; a shift by zero hands the number back as it is |
| BigShift.NestedStaysNegative | include/lstd/big_integer.h:1079-1097 | rshift of a number returns within some number of nested calls, whatever the carries, exactly if n is zero or the number is not negative |
| BigDiv.InplaceDivRem1 | include/lstd/big_integer.h:798-815 | quotient and remainder of a digit vector by one digit, also in place |
| BigDiv.DivRem1 | include/lstd/big_integer.h:824-837 | quotient and remainder of the magnitude by one digit; at least one digit is asked for exactly if the number is not zero |
| BigDiv.EstimateDigit | include/lstd/big_integer.h:884-897 | the corrected estimate is the exact quotient of the top three digits by the top two, and at most BASE + 1 |
| BigDiv.EstimateIsClose | include/lstd/big_integer.h:884-897 | the corrected estimate is the true quotient digit or one more |
| BigDiv.MultiplySubtract | include/lstd/big_integer.h:899-912 | qhat times the divisor is subtracted from the window, down to a signed top that stays in range |
| BigDiv.SubtractedSign | include/lstd/big_integer.h:914 | after the subtraction the top is 0 or -1, and -1 exactly when the estimate was one too large |
| BigDiv.AddBackExact | include/lstd/big_integer.h:916-925 | adding the divisor back restores the remainder below the divisor |
| BigDiv.DivideStep | include/lstd/big_integer.h:880-930 | one turn: the window becomes the remainder by the divisor, the digit is the exact quotient digit and fits; when dividend and divisor are one buffer, the digit is still exact, and what is left is said for an estimate that needs no correction and for one that does |
| BigDiv.SharedRemainder | include/lstd/big_integer.h:880-930 | a turn that overwrites its divisor leaves the right remainder if and only if the estimate needs no correction or the remainder is the one for which doubling comes out right |
| BigDiv.DividedByItself | include/lstd/big_integer.h:880-930 | a number divided by itself in one buffer needs no correction |
| BigDiv.LongerSharedDividend | include/lstd/big_integer.h:880-930 | an input with dividend and divisor in one buffer and of different lengths for which the turn leaves a wrong remainder |
| BigDiv.DivideLoop | include/lstd/big_integer.h:876-930 | the quotient digits and the remainder left in place satisfy the division equation; with dividend and divisor in one buffer and a single turn, exactly if StaysRight holds of them |
| BigDiv.NormalizingShift | include/lstd/big_integer.h:855-862 | the shift moves the highest bit of the top digit to the highest bit of a digit |
| BigDiv.DivisorNormalized | include/lstd/big_integer.h:855-865 | the shifted divisor keeps its length and its top digit is at least half of BASE |
| BigDiv.ShiftedTopOf | include/lstd/big_integer.h:862-865 | the top digit of the shifted number is the shifted top digit with the bits moved up from the digit below, unless it overflows into one more |
| BigDiv.TopBelowAfterShift | include/lstd/big_integer.h:862-874 | the shifted dividend is as short as the divisor with a smaller top digit exactly if TopBelow holds of the operands |
| BigDiv.GrowDividend | include/lstd/big_integer.h:866-874 | a zero digit goes on top exactly if the top digit is not below that of the divisor; the block grows in place or moves only when it is full |
| BigDiv.ShiftOperands | include/lstd/big_integer.h:855-865 | both operands are multiplied by the same power of two, and the block of the dividend is handed on exactly if it is allocated and the shift is zero |
| BigDiv.NormalizeOperands | include/lstd/big_integer.h:855-874 | both operands are multiplied by the same power of two; the dividend keeps the length of the divisor if and only if TopBelow holds of the operands, and gets a zero digit on top where it needs one; its own block is used exactly if the shift is zero and realloc does not move it |
| BigDiv.XDivRem | include/lstd/big_integer.h:839-940 | the quotient is that of the magnitudes, for every divisor of at least two digits; quotient and remainder satisfy the division equation if and only if ComesOut holds, which it does unless the only turn overwrites the divisor; the block of the dividend holds r exactly if it is allocated, the shift is zero and realloc has not moved it; a number divided by itself gives 1 and 0 and leaves zeros; the quotient asks for digits exactly if TopBelow does not hold |
| BigDiv.DivideShifted | include/lstd/big_integer.h:839-935 | the division up to shifting the remainder back |
| BigDiv.LongerSharedQuotient | include/lstd/big_integer.h:839-940 | an input for which quotient and remainder do not satisfy the division equation |
| BigOperators.Add | include/lstd/big_integer.h:1245-1261 | the sum of the values, normalized |
| BigOperators.Subtract | include/lstd/big_integer.h:1263-1279 | the difference of the values, normalized |
| BigOperators.Multiply | include/lstd/big_integer.h:1281-1289 | the product of the values, normalized |
| BigOperators.DivRem | include/lstd/big_integer.h:1175-1212 | truncating division for all signs; division by zero exactly for a zero divisor; what both operands hold afterwards, x / x included; the remainder takes the block of the dividend exactly if TakesBlock holds; the assertion on digits fails exactly if AsksForNone holds |
| BigOperators.ShorterThan | include/lstd/big_integer.h:1182-1184 | the quick test by lengths and top digits; it answers true only for a smaller magnitude |
| BigOperators.QuotientWithoutDigits | include/lstd/big_integer.h:1291-1294 | 2^30 divided by 2^30 + 2 asks for a quotient of no digits |
| BigOperators.Quotient | include/lstd/big_integer.h:1291-1294 | the quotient of the truncating division, in a block of its own; 1 or -1 for a number divided by itself or its negation in one buffer, which is left zero where the division works in it |
| BigOperators.Remainder | include/lstd/big_integer.h:1296-1299 | the remainder of the flooring division, what both operands hold afterwards, and when it may share the block of the dividend |
| BigOperators.OperatorsMatch | include/lstd/big_integer.h:1291-1299 | / and % make up the dividend again if and only if the divisor divides it or the signs agree; -7 and 2 is an input for which they do not |
| BigOperators.DivMod | include/lstd/big_integer.h:1214-1225 | flooring division for all signs; division by zero exactly for a zero divisor; what both operands hold afterwards, with the remainder of the truncating division; the quotient has a block of its own, the remainder that of the dividend only if TakesBlock holds |
| BigOperators.CorrectedForFloor | include/lstd/big_integer.h:1216-1224 | a remainder whose sign is not that of the divisor gets the divisor added, and the quotient one less; any other pair stays |
| IntegerDivision.DivisionsUnique | include/lstd/big_integer.h:1175-1225 | the truncating and the flooring pair of quotient and remainder are each determined |
| IntegerDivision.FloorsFromTruncates | include/lstd/big_integer.h:1214-1225 | the correction turns the truncating pair into the flooring pair exactly when the remainder and the divisor differ in sign |
| IntegerDivision.NothingLeftOver | include/lstd/big_integer.h:1214-1225 | the truncating remainder is zero exactly if the divisor divides the dividend |
| BigBitwise.VComplement | include/lstd/big_integer.h:942-953 | the two's complement of a vector that is not zero, with no carry left |
| BigBitwise.SignedBits | include/lstd/big_integer.h:956-1060 | combining digit by digit combines every bit of the infinite two's complement numbers |
| BigBitwise.ResultBits | include/lstd/big_integer.h:992-1049 | the chosen number of digits is enough: all digits above repeat the sign of the result |
| BigBitwise.ComplementRoom | include/lstd/big_integer.h:1014-1056 | with one more digit a negative result can be complemented without overflow |
| BigBitwise.Bitwise | include/lstd/big_integer.h:956-1070 | and, or and exclusive or give the number whose every bit is the operation on the bits of the operands, for all signs; digits are asked for exactly if not both operands are zero |
| BigBitwise.AndOfZeros | include/lstd/big_integer.h:1014-1016 | 0 & 0 asks for no digits |
| BigBitwise.BitwiseUnique | include/lstd/big_integer.h:956-1070 | there is only one such number |
| Int128.AddIsExact | include/lstd/common.h:1428-1434 | addition modulo 2^128 |
| Int128.SubIsExact | include/lstd/common.h:1436-1442 | subtraction modulo 2^128 |
| Int128.SllIsProduct | include/lstd/common.h:1363-1380 | left shift is the product by 2^n modulo 2^128, for all n below 128 |
| Int128.SrlIsQuotient | include/lstd/common.h:1382-1399 | logical right shift is the quotient by 2^n, for all n below 128 |
| Int128.SraIsQuotient | include/lstd/common.h:1401-1418 | arithmetic right shift is the flooring quotient of the signed number by 2^n, for all n below 128 |
| Int128Div.UMulIsExact | include/lstd/common.h:900-918 | the four-product scheme gives the exact 128-bit product and its high word |
| Int128Div.MulUIsProduct | include/lstd/common.h:1458-1468 | unsigned multiplication modulo 2^128 |
| Int128Div.Clz | include/lstd/common.h:863-870 | the number of leading zeros moves the highest set bit to bit 63 |
| Int128Div.QuotientHalf | include/lstd/common.h:1033-1053 | one base-2^32 step: an exact 32-bit quotient digit and the true partial remainder, through the wrap-around |
| Int128Div.CorrectedDigit | include/lstd/common.h:1036-1041 | subtracting 0, 1 or 2 from the estimate gives the exact digit |
| Int128Div.UDiv128By64 | include/lstd/common.h:1005-1058 | x = q*y + r with r < y whenever x.hi < y; all ones otherwise |
| Int128Div.EstimateOffByOne | include/lstd/common.h:1068-1087 | the halved, normalized estimate is the quotient or one away from it |
| Int128Div.EstimateQuotient | include/lstd/common.h:1068-1087 | the estimate is never too small and at most one too large |
| Int128Div.UDiv128By128 | include/lstd/common.h:1063-1129 | the exact 128-bit division for every divisor of at least 2^64 |
| Int128Div.DivModU | include/lstd/common.h:921-962 | the exact unsigned division in every branch; all ones and the dividend for a zero divisor |
| Int128Div.DivMod | include/lstd/common.h:1511-1524 | truncating division if and only if it is not the smallest number by -1, which wraps around; a zero divisor gives plus or minus one and the dividend |
| QuickSort.Partition | include/lstd/qsort.h:119-142 | the pivot, the middle element, is put in its final place: nothing before it is greater, nothing after it smaller, and only the frame is rearranged |
| QuickSort.InsertionSort | include/lstd/qsort.h:155-170 | the short side is sorted, a rearrangement of itself |
| QuickSort.PendingSplit | include/lstd/qsort.h:172-195 | elements still out of order are together in a frame that has been pushed |
| QuickSort.FramesHalve | include/lstd/qsort.h:186-195 | the frame at depth d spans at most length/2^d elements |
| QuickSort.DepthFits | include/lstd/qsort.h:103-116 | a frame worth pushing never needs more than the 64 entries of the stack |
| QuickSort.SortSide | include/lstd/qsort.h:172-184 | a short side is sorted at once, a longer one is pushed |
| QuickSort.SortFrame | include/lstd/qsort.h:118-196 | one turn of the loop keeps the invariant and leaves fewer pending elements |
| QuickSort.QuickSort | include/lstd/qsort.h:103-197 | a sorted permutation for any total preorder and length of at least 1 |
| DecimalDigits.LogEstimateIsClose | include/lstd/bits.h:170-182 | the estimate through the binary logarithm is off by at most one, for every word |
| DecimalDigits.CountDigitsExact | include/lstd/bits.h:170-183 | the number of decimal digits for every word but zero, for which it is 0 |
| GrisuDigits.GetRoundDirection | src/lstd/fmt/float_grisu.cpp:96-117 | the overflow-free tests decide the doubled comparisons |
| GrisuDigits.RoundingIsSound | src/lstd/fmt/float_grisu.cpp:96-117 | rounding as told is within half a unit of every number in the error interval |
| GrisuDigits.HalfUnitOfReals | src/lstd/fmt/float_grisu.cpp:96-100 | the same for every real number in the interval |
| GrisuDigits.IncrementDigits | src/lstd/fmt/float_grisu.cpp:166-173 | adding one to the digits with the carry through trailing nines adds one to the number |
| GrisuDigits.RoundUp | src/lstd/fmt/float_grisu.cpp:166-183 | rounding up adds one in the last place; the number of digits stays, except that 99..9 becomes a digit longer in fixed notation, and raises the exponent by one otherwise |
| GrisuDigits.OnDigit | src/lstd/fmt/float_grisu.cpp:140-185 | a digit is appended; more are asked for exactly while precision and error allow it; it is done exactly if the digit is integral or the error is below the remainder and half the divisor, and the error interval lies on one side of half the divisor; a finished number is rounded to within half a unit and stands in as many digits as there were, or one more after a roll-over in fixed notation |
| GrisuDigits.GenDigitsOnStart | src/lstd/fmt/float_grisu.cpp:119-138 | the precision is adjusted; it is done exactly if the fixed precision is negative, or zero with the error interval on one side; a number rounded away entirely is 0 or 1 and within half a unit |
| GrisuDigits.IntegralStep | src/lstd/fmt/float_grisu.cpp:212-267 | each integral digit leaves the scaled value accounted for |
| GrisuDigits.FractionStep | src/lstd/fmt/float_grisu.cpp:269-280 | each fractional digit leaves the scaled value accounted for, without overflow |
| GrisuDigits.ErrorBound | src/lstd/fmt/float_grisu.cpp:269-280 | the tenfold growing error ends the loop within 19 digits |
| GrisuDigits.IntegralDecides | src/lstd/fmt/float_grisu.cpp:96-117 | the rounding of an integral digit is decided by what the whole value leaves at that digit |
| GrisuDigits.FractionDecides | src/lstd/fmt/float_grisu.cpp:269-280 | the rounding of a fractional digit is decided by the value times its power of ten, as long as the error stays below every remainder before it |
| GrisuDigits.NothingToWrite | src/lstd/fmt/float_grisu.cpp:131-133 | a value above which the precision ends is within half a unit of zero |
| GrisuDigits.GenIntegralDigits | src/lstd/fmt/float_grisu.cpp:212-267 | the integral digits: as many as asked for, done exactly if the last one can be rounded, to within half a unit |
| GrisuDigits.GenFractionalDigits | src/lstd/fmt/float_grisu.cpp:269-280 | the fractional digits: at most 19 of them and 30 characters, done exactly if every digit asked for can be decided, and rounded to within half a unit |
| GrisuDigits.GenDigits | src/lstd/fmt/float_grisu.cpp:187-281 | always ends; done exactly if CanFinish holds of the value, the precision and the notation; a finished number, the empty one included, is within half a unit in its last place of every number in the error interval, has as many digits as asked for, or one more exactly if it was rounded up to a power of ten in fixed notation, and the exponents are raised by one exactly if that happens otherwise; after an error the exponent and the digits written add up to the integral digits |
| HashTable.ProbeMissesNothing | include/lstd/hash_table.h:178-197 | a probe that meets a free slot, or comes all the way round, has not missed the key |
| HashTable.StoreSound | include/lstd/hash_table.h:220-230 | a new entry at the end of its probe sequence keeps every entry reachable and adds exactly its pair |
| HashTable.SecondEntryHidden | include/lstd/hash_table.h:199-232 | adding a pair that is present stores a second entry behind the first, which a search still finds first with its value |
| HashTable.GrowthDoubles | include/lstd/hash_table.h:208-216 | growing gives 32 slots to an empty table and exactly twice its slots to any other, and moving the entries does not make it grow again |
| HashTable.LoadKept | include/lstd/hash_table.h:208-232 | every addition keeps the load in bounds, also when counters are not reset on growing |
| HashTable.CountIsRight | include/lstd/hash_table.h:201-232 | Count is the number of pairs exactly up to 19 of them; after that it is too large, so that the table doubles with the 20th, the 21st and the 38th pair |
| HashTable.EntriesCounted | include/lstd/hash_table.h:61-127 | a table has as many used slots as there are pairs |
| HashTable.HomeIsMasked | include/lstd/hash_table.h:178-197 | the remainder by the number of slots is the hash masked by that number less one, for 64-bit hashes |
| HashTable.HashTable.constructor | include/lstd/hash_table.h:83-83 | a new table is empty |
| HashTable.HashTable.Search | include/lstd/hash_table.h:178-197 | finds exactly the pairs of hash and key set, and the slot with the latest value |
| HashTable.HashTable.Insert | include/lstd/hash_table.h:218-231 | the probe loop ends at a free slot and the entry is stored there |
| HashTable.HashTable.Add | include/lstd/hash_table.h:208-232 | the pair, its hash moved up if it is no valid one, is added in the slot returned; the table at most doubles, and adding the old entries never grows it |
| HashTable.HashTable.Resize | include/lstd/hash_table.h:128-150 | rehashing keeps the map for every number of slots asked for, also when moving the entries makes the table grow again; when it does not, the slots are those asked for and the counters end at the old counter plus the entries |
| HashTable.HashTable.MoveEntries | include/lstd/hash_table.h:139-147 | the loop adds exactly the old entries, and leaves the table in its bounds if the new slots were |
| HashTable.LoadWithNoEntries | include/lstd/hash_table.h:128-138 | a table grown by hand is within its bounds before the entries are moved |
| HashTable.HashTable.Set | include/lstd/hash_table.h:241-249 | the map with the one pair changed; a pair that was present leaves counters, slots and entries in place, a new one counts up or grows as adding does; a pair under the hash 0 or 1 is added under the hash moved up |
| HashTable.HashTable.Reset | include/lstd/hash_table.h:161-165 | the empty map with the same slots and counters of zero |
| HashTable.ReplayedIsLatest | include/lstd/hash_table.h:241-249 | a run of sets leaves exactly the keys set, with their latest values |
| HashTable.SetsThenSearch | include/lstd/hash_table.h:177-249 | after any run of sets from the empty table, search finds a key exactly if it was set, with its latest value; slots and counter are those that FillAfter gives for the number of different pairs |
| HashTable.AddThenSearch | include/lstd/hash_table.h:178-232 | what is added under a hash is found under it exactly if the hash is at least 2 |
| PowersOfTwo.CeilPowerOf2 | include/lstd/common.h:3651-3663 | the least power of two that is not below the argument |
| TrailingZeros.TestDecides | src/lstd/fmt/float_dragonbox.cpp:741-793 | one wrapped product by a modular inverse decides divisibility and is the exact quotient |
| TrailingZeros.Table32Tests | src/lstd/fmt/float_dragonbox.cpp:748-754 | every entry of the 32-bit table is the inverse of its power of five, with the largest quotient |
| TrailingZeros.Table64Tests | src/lstd/fmt/float_dragonbox.cpp:756-780 | every entry of the 64-bit table likewise |
| TrailingZeros.DivisibleU32IsExact | src/lstd/fmt/float_dragonbox.cpp:782-787 | true exactly for multiples of 5^exp, for every 32-bit word |
| TrailingZeros.DivisibleU64IsExact | src/lstd/fmt/float_dragonbox.cpp:789-793 | true exactly for multiples of 5^exp, for every 64-bit word |
| TrailingZeros.RemoveTrailingZerosU32 | src/lstd/fmt/float_dragonbox.cpp:931-953 | old n is new n times 10^s, and s is 7 or no zero is left |
| TrailingZeros.RemoveFromQuotient | src/lstd/fmt/float_dragonbox.cpp:971-987 | the zeros of the quotient by 10^8, after the first eight |
| TrailingZeros.RemoveFromRemainder | src/lstd/fmt/float_dragonbox.cpp:989-1033 | the unrolled tests on the remainder by 10^8 find all zeros of the whole number |
| TrailingZeros.RemoveTrailingZerosU64 | src/lstd/fmt/float_dragonbox.cpp:956-1034 | old n is new n times 10^s, and s is 16 or no zero is left, for n below 2^32 * 10^8 |
| TrailingZeros.StrippedIsMaximal | src/lstd/fmt/float_dragonbox.cpp:930-958 | no larger number of zeros up to the cap could have been removed |
| PrintParse.TableCovers | src/lstd/fmt/write.cpp:64-69 | the table of digit pairs holds the two digits of every number below 100 |
| PrintParse.FormatUintDecimal | src/lstd/fmt/write.cpp:71-112 | fills exactly the end of the buffer with the digits, in groups of three if there is a separator |
| PrintParse.LeftIsSeparated | src/lstd/fmt/write.cpp:78-108 | counting digits as they are written groups them from the right |
| PrintParse.SeparatedIsPlain | src/lstd/fmt/write.cpp:78-108 | removing the separators gives the plain digits back |
| PrintParse.SeparatedLength | src/lstd/fmt/write.cpp:428-431 | one separator for every three digits after the first |
| PrintParse.FormatUintBase | src/lstd/fmt/write.cpp:114-126 | fills exactly the end of the buffer with the digits in base 2, 8 or 16 |
| PrintParse.CountDigitsBits | include/lstd/bits.h:185-194 | the number of digits that are printed in base 2, 8 or 16 |
| PrintParse.TextLength | include/lstd/bits.h:166-183 | a number between two powers of the base has that many digits |
| PrintParse.TextInCase | src/lstd/fmt/write.cpp:114-126 | no lower-case letter in an upper-case number and none in upper case in any other, in every base up to 36 |
| PrintParse.SeparatedAt | src/lstd/fmt/write.cpp:78-108 | the character at each place from the end: a separator at every fourth, the digits in order at the others |
| PrintParse.CommasInPlace | src/lstd/fmt/write.cpp:460-465 | the n form has commas at exactly those places |
| PrintParse.WriteDigits | src/lstd/fmt/write.cpp:321-473 | without prefix and padding, the text printed for every word and kind has letters of the case asked for, begins at the start of the buffer, has exactly the size computed, and fits in 65 characters |
| PrintParse.WriteGrouped | src/lstd/fmt/write.cpp:405-465 | the n form with prefix, width and precision fits in the 65 characters exactly if width or precision and the separators do, and then the text is the grouped digits |
| ParseInt.HandleNegative | include/lstd/parse.h:76-91 | the negation of a word |
| ParseInt.CutOffIsExact | include/lstd/parse.h:268-275 | the test fires exactly if the next value exceeds the maximum |
| ParseInt.WrapStep | include/lstd/parse.h:277-281 | wrapping after every digit is wrapping the whole number |
| ParseInt.ParseIntSmallInteger | include/lstd/parse.h:202-285 | the number at the start of the input, the first digit that is too much, or nothing, and how much was consumed, for all options |
| ParseInt.DigitsOfText | include/lstd/parse.h:50-58 | the digits printed for a number in any base up to 36 are valid digits that stand for it |
| ParseInt.ValidExactly | include/lstd/parse.h:50-58 | the characters accepted in a base up to 36 are the digits and letters printed for it, in either case, and no others |
| ParseInt.PrintThenParse | include/lstd/parse.h:202-285 | printing any word and parsing it, whatever follows, gives the word back and consumes exactly its text |
| ParseInt.SeparatorsOnly | src/lstd/fmt/write.cpp:460-465 | the n form without its separators is the d form |
| PoolAllocator.AllSpaced | include/lstd/memory.h:565-595 | no two chunks of the pool overlap |
| PoolAllocator.LinksApart | include/lstd/memory.h:565-577 | the words written at the chunks stay apart from all other chunks if and only if an element holds a word |
| PoolAllocator.LastLinkInside | include/lstd/memory.h:565-577 | the word written at the last chunk stays in the block if and only if an element holds a word |
| PoolAllocator.LinkTwoChunks | include/lstd/memory.h:565-577 | in memory of bytes, the second of two chunks is found again exactly if an element holds a word or the bytes of its address that are overwritten are zero |
| PoolAllocator.Pool.constructor | include/lstd/memory.h:541-556 | an empty pool |
| PoolAllocator.Pool.AddFreeChunks | include/lstd/memory.h:565-577 | the chunks of a stretch are linked in front of the free list, and nothing else is written |
| PoolAllocator.Pool.ProvideBlock | include/lstd/memory.h:579-595 | the chunks of the new block join the free list in order; they follow the two words of the header without a gap up to the end of the block; free and live chunks still make up all blocks; nothing else is written |
| PoolAllocator.Pool.Allocate | include/lstd/memory.h:602-611 | null exactly if nothing is free, otherwise a chunk that was free and overlaps no live one |
| PoolAllocator.Pool.Free | include/lstd/memory.h:616-621 | a live chunk goes back to the front of the free list, and nothing but its first word is written |
| PoolAllocator.Pool.FreeAll | include/lstd/memory.h:622-631 | every chunk of every block is free exactly once, in the order in which the blocks are linked up, and nothing but words of chunks is written |
| PoolAllocator.Pool.WriteToLive | include/lstd/memory.h:531-540 | writing inside a chunk that is held disturbs neither list |
| ReplaceAll.DynamicArray.MaybeGrow | include/lstd/array_like.h:412-446 | room for the elements asked for, the contents the same; an array that is too short gets 8 elements or the least power of two above what is asked for |
| ReplaceAll.DynamicArray.ReplaceRange | include/lstd/array_like.h:532-558 | the contents with the range replaced, negative indices counted from the end |
| ReplaceAll.DynamicArray.Search | include/lstd/array_like.h:337-354 | the first occurrence from the start on or, reversed, the last one up to it; -1 if there is none or nothing to search |
| ReplaceAll.ReplacedFirst | include/lstd/array_like.h:560-622 | up to the first occurrence nothing changes, and the rest is replaced behind it |
| ReplaceAll.DynamicArray.ReplaceAllInPlace | include/lstd/array_like.h:568-597 | the overwriting branch replaces the leftmost occurrences that do not overlap |
| ReplaceAll.DynamicArray.ReplaceAllBySplicing | include/lstd/array_like.h:612-620 | the splicing branch gives the same, never searches what it inserted, and ends |
| ReplaceAll.DynamicArray.ReplaceAll | include/lstd/array_like.h:560-622 | both branches replace the leftmost occurrences that do not overlap |
| ExponentialArray.LocateIsBijective | include/lstd/xar.h:35-51 | each position of each chunk belongs to exactly one index |
| ExponentialArray.LocateByPowers | include/lstd/xar.h:35-51 | the first 2^b elements are in chunk 0, those from 2^(b + c - 1) up to 2^(b + c) in chunk c, in order |
| ExponentialArray.BuilderChunk | include/lstd/string_builder.h:37-46 | the chunk the builder appends to is the one get finds |
| ExponentialArray.XArray.constructor | include/lstd/xar.h:15-26 | an empty array, with its first chunk inline or not |
| ExponentialArray.XArray.Get | include/lstd/xar.h:35-51 | the element of that index, negative ones counted from the end |
| ExponentialArray.XArray.Capacity | include/lstd/xar.h:69-87 | the capacity of the chunks there are, and the first one missing |
| ExponentialArray.XArray.Reserve | include/lstd/xar.h:66-110 | there is room; the elements are the same and no chunk has moved; no chunk is added that is not needed |
| ExponentialArray.XArray.Add | include/lstd/xar.h:112-116 | the contents with the element at the end |
| ExponentialArray.XArray.AddAll | include/lstd/string_builder.h:28-63 | the contents with the data at the end, across chunks |
| ExponentialArray.XArray.ToSequence | include/lstd/string_builder.h:76-88 | everything added, in order |
| ExponentialArray.FlatWrite | include/lstd/string_builder.h:48-62 | copying into a stretch of a chunk changes that stretch of the whole and nothing else |
| ExponentialArray.FlatPrefix | include/lstd/xar.h:91-109 | new chunks leave the elements before them where they are |

## Left out

- BigIntegers.MakeBig: only magnitudes below 2^60, which `RoomOfMakeBig` shows to be those whose digits fit.
- BigDiv.XDivRem: a longer dividend that shares the block the division works in and needs more than one turn, all but the first with a divisor already overwritten.
- BigOperators.DivRem: a longer dividend that shares the block the division works in, for which `BigDiv.LongerSharedQuotient` shows a wrong result.
- BigOperators.DivMod: the same restriction.
- BigOperators.Quotient: the same restriction.
- BigOperators.Remainder: the same restriction.
- BigDiv.NormalizeOperands: a block that `realloc` has moved is read like the old one where dividend and divisor shared it; whether its memory is used again before that is not modelled.
- BigShift.RShift: that it does not return is shown by the sizes of the numbers its nested calls get; the digits that `add_one` makes, which counts up the top digit where the bottom one is meant, are not modelled.
- Int128Div.Clz: the meaning of the count-leading-zeros instruction; the macro that returns 64 for a set top bit is not modelled.
- `i128_mul`, `i128_neg`, the comparisons of 128-bit numbers and the 128-bit parts of `count_digits`: only easy members, or a forced sign bit.
- QuickSort.QuickSort: length 0, for which the first frame lies outside the array.
- GrisuDigits.GenDigits: the error is 1 on entry, as the assertions on the integral digits demand; the powers of ten and the scaling around it are not modelled.
- HashTable.HashTable.Add: the table after a pair that is already present has been added; `SecondEntryHidden` says what the next search finds.
- HashTable.HashTable.Set: setting a pair under the hash 0 or 1 for a second time, which adds a second entry.
- Removal from the hash table: it refers to members that do not exist.
- `divisible_by_power_of_2`, the remaining steps of Dragonbox and Grisu and everything about floats.
- PrintParse.WriteDigits: writing the prefix and the padding; of width and precision only what they do to the n form (`WriteGrouped`).
- PrintParse.WriteGrouped: what is written when the size does not fit in the buffer.
- ParseInt.ParseIntSmallInteger: signed types, characters outside ASCII and digit functions other than the default one.
- PoolAllocator.Pool.constructor: elements of at least one word; `LinksApart`, `LastLinkInside` and, for two chunks, `LinkTwoChunks` say what becomes of the links of shorter ones.
- ExponentialArray.XArray.Reserve: sizes beyond the capacity of all chunks or beyond 2^31, for which the shifts overflow.
- ReplaceAll.DynamicArray.ReplaceAll: searched or replacing elements that lie in the array itself.
- Input and output, operating-system calls, threads, paths, UTF-8 and UTF-16, the other formatting of values, and the build scripts.
