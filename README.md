# mini-gmp-plus-plus in Dafny

This project models the core of mini-gmp-plus-plus, a thin C++ layer over GMP's
mini-gmp. The core has two parts.

- **bitops64.h** provides five primitives on 64-bit words:
  - count leading zeroes, `bitops64_clz`;
  - count trailing zeroes, `bitops64_ctz`;
  - a variant of each whose caller promises `x != 0`, `bitops64_clz_nonzero` and `bitops64_ctz_nonzero`;
  - the high word of a 128-bit left shift, `bitops64_lshift128`.

  The header implements them three times, once for GCC/Clang, once for Visual C++ and once as a portable fallback.
  Each primitive gets one specification, taken from the header's doc comments: `Clz`, `Ctz` and `LShift128`.
  The GCC/Clang and Visual C++ implementations are proved equal to that specification on every word.
  The portable fallback `bitops64_clz` and `bitops64_ctz` are proved equal to it only for x != 0: at x == 0 the fallback does not return the documented 64 (see "## Findings").
  The fallback `bitops64_clz` is a `method` with its two loops and their invariants.
- **BigInt.hpp** holds class `BigInt`, and **MiniMPZ.hpp** holds class `MiniMPZ`. The two files are the same text line for line, apart from the class name.
  - The class owns one `mpz_t`, and each member delegates to one mini-gmp routine.
  - The model is a Dafny `class BigInt` with one mutable field, `value: int`. `MiniMPZ` is a type synonym for it.
  - Binary operators return a fresh object. Compound assignments change the receiver in place. Moves reset the source to 0.
  - The mini-gmp routines are functions over unbounded integers, each defined by the result the GMP manual documents:
    - `mpz_tdiv_q` truncates;
    - `mpz_mod` is non-negative;
    - `mpz_sqrt` is the floor square root;
    - `mpz_pow_ui` raises to a power;
    - `mpz_cmp` compares;
    - `mpz_get_str` and `mpz_set_str` convert to and from base-10 text.

Modules:

| file | module | contents |
|---|---|---|
| arith.dfy | `Arith` | division and multiplication facts used by the proofs |
| words.dfy | `Words` | `uint64_t` as a natural below 2^64; shifts, masks, negation, bitwise and/or written as arithmetic |
| bitops64.dfy | `Bitops64` | the specifications and the three implementations of the header |
| mpz.dfy | `Mpz` | the mini-gmp routines used by the class |
| decimal.dfy | `Decimal` | base-10 text |
| bigint.dfy | `Bignum` | class `BigInt` / `MiniMPZ` |
| bigint_scenarios.dfy | `LargeNumberText`, `BignumScenarios` | the unit-test scenarios of tests/test_BigInt.cpp, with the values they assert |

Every row below that cites BigInt.hpp also describes the same line of MiniMPZ.hpp. Likewise, every row citing tests/test_BigInt.cpp also describes the same line of tests/test_MiniMPZ.cpp.

## Model

| member | source | states |
|---|---|---|
| Bitops64.Clz | bitops64.h:61-69 | clz is at most 64; it is 64 exactly for x == 0; for x != 0 it places x in [2^(63-k), 2^(64-k)) |
| Bitops64.ClzCharacterization | bitops64.h:61-69 | for x != 0, clz(x) is the only k in [0,63] with 2^(63-k) <= x < 2^(64-k) (both directions) |
| Bitops64.ClzZero | bitops64.h:61-90 | clz(0) == 64 and ctz(0) == 64, as the doc comments promise |
| Bitops64.Ctz | bitops64.h:82-90 | ctz is at most 64; it is 64 exactly for x == 0; for x != 0, 2^k divides x and 2^(k+1) does not |
| Bitops64.CtzCharacterization | bitops64.h:82-90 | for x != 0, ctz(x) is the only k in [0,63] with 2^k dividing x and 2^(k+1) not dividing it (both directions) |
| Bitops64.LShift128 | bitops64.h:97-103 | for a shift in [0,64), the most significant limb of (high:low) << shift is the low 64 - shift bits of high moved up by shift, with the top shift bits of low below them |
| Bitops64.ClzCtzOfPow2 | bitops64.h:221-223 | 2^k has 63 - k leading and k trailing zeroes |
| Bitops64.BuiltinClzll | bitops64.h:56-59 | `__builtin_clzll` on x != 0 gives r in [0,63] with x >> (63 - r) == 1: bit 63 - r is the highest bit set |
| Bitops64.BuiltinCtzll | bitops64.h:77-80 | `__builtin_ctzll` on x != 0 gives r in [0,63] with the r low bits of x clear and bit r set |
| Bitops64.GccClzNonzero | bitops64.h:56-59 | `__builtin_clzll` on x != 0 gives a count in [0,63] that places x between 2^(63-r) and 2^(64-r) |
| Bitops64.GccClz | bitops64.h:67-69 | the GCC clz with its zero test equals the specification, 64 included |
| Bitops64.GccCtzNonzero | bitops64.h:77-80 | `__builtin_ctzll` on x != 0 gives a count in [0,63] such that 2^r divides x and 2^(r+1) does not |
| Bitops64.GccCtz | bitops64.h:88-90 | the GCC ctz with its zero test equals the specification |
| Bitops64.GccLShift128 | bitops64.h:104-112 | the `unsigned __int128` computation `((high<<64 \| low) << shift) >> 64`, truncated to 64 bits, is the high word of the 128-bit shift |
| Bitops64.HighWordOfWide | bitops64.h:108-111 | truncating to 128 bits and then taking bits 64..127 is taking the second word |
| Bitops64.BitScanReverse64 | bitops64.h:125-130 | `_BitScanReverse64` finds no bit exactly when x == 0; otherwise it reports an index i <= 63 with 2^i <= x < 2^(i+1) |
| Bitops64.BitScanForward64 | bitops64.h:149-154 | `_BitScanForward64` finds no bit exactly when x == 0; otherwise it reports an index i <= 63 with 2^i dividing x and 2^(i+1) not dividing it |
| Bitops64.MsvcClzNonzero | bitops64.h:125-130 | 63 - (index reported by `_BitScanReverse64`) is clz for x != 0 |
| Bitops64.MsvcClz | bitops64.h:138-141 | the MSVC clz, with 64 when no bit is found, equals the specification |
| Bitops64.MsvcCtzNonzero | bitops64.h:149-154 | the index reported by `_BitScanForward64` is ctz for x != 0 |
| Bitops64.MsvcCtz | bitops64.h:162-165 | the MSVC ctz, with 64 when no bit is found, equals the specification |
| Bitops64.ShiftLeft128Intrinsic | bitops64.h:174-178 | `__shiftleft128` takes the shift modulo 64: a multiple of 64 gives high; otherwise the low bits of high moved up, with the top bits of low below them |
| Bitops64.MsvcLShift128 | bitops64.h:174-178 | `__shiftleft128(low, high, shift)` for a shift in [0,64) is the high word of the 128-bit shift |
| Bitops64.TopMasks | bitops64.h:194-197 | `0xff << 56` and `1 << 63` are the masks of bits 56..63 and of bit 63 |
| Bitops64.ClzLoopStep | bitops64.h:194-199 | one trip of either fallback loop keeps its invariants: x == x0 << c without wrap-around, and the top c bits of x0 zero; c grows by 8 or by 1 and stays at most 63 |
| Bitops64.ClzLoopExit | bitops64.h:197-200 | when the bit loop stops, c is clz(x0) |
| Bitops64.GenericClz | bitops64.h:192-201 | the fallback clz loops, for x0 != 0, terminate with c == clz(x0) |
| Bitops64.GenericClzNonzero | bitops64.h:209-212 | the fallback clz_nonzero returns clz(x) |
| Words.BitAndNegated | bitops64.h:222 | for 0 < x < 2^n, x & (2^n - x) is 2^(trailing zeroes of x) |
| Bitops64.LowestSetBit | bitops64.h:222 | for a non-zero word, `x & -x` (negation modulo 2^64) is 2^ctz(x) |
| Bitops64.CtzViaClz | bitops64.h:221-223 | for x != 0, 63 - clz(x & -x) == ctz(x) |
| Bitops64.GenericCtz | bitops64.h:221-223 | the fallback ctz returns ctz(x) for x != 0 |
| Bitops64.GenericCtzNonzero | bitops64.h:231-234 | the fallback ctz_nonzero returns ctz(x) |
| Bitops64.GenericLShift128 | bitops64.h:244-249 | the fallback lshift128 equals the 128-bit definition for every shift in [0,64) |
| Bitops64.LShift128ByZero | bitops64.h:247-248 | a shift by 0 returns high |
| Bitops64.LShift128Parts | bitops64.h:247-248 | for 0 < s < 64, `high << s` and `low >> (64 - s)` share no bit, and their or is the 128-bit definition |
| Words.ShiftLeft | bitops64.h:194-199 | `x << s` on a `uint64_t`: for s <= 64 the s low bits of the result are 0 |
| Words.ShiftLeftNoWrap | bitops64.h:194-199 | when x < 2^(64 - s), `x << s` loses no bit and is x * 2^s |
| Words.ShiftRight | bitops64.h:247-248 | `x >> s` is the floor of x / 2^s: r * 2^s <= x < (r + 1) * 2^s; it is 0 for s >= 64 |
| Words.Negate | bitops64.h:222 | `-x` on a `uint64_t` is 0 for 0, and otherwise the word that adds to x to give 2^64 |
| Words.BitAnd | bitops64.h:194-197 | `a & b` is at most a and at most b |
| Words.BitOr | bitops64.h:247-248 | `a \| b` is at least each operand and at most their sum |
| Words.BitAndHighMask | bitops64.h:194-197 | masking an n-bit x with bits k..n-1 gives 0 exactly when x < 2^k |
| Words.BitOrDisjoint | bitops64.h:248 | or of a * 2^k and b < 2^k is their sum |
| Bitops64.GenericClzNeverExitsAtZero | bitops64.h:192-201 | as written, at x0 == 0 every shift of x stays 0, so the byte-loop test stays true, while clz(0) is documented as 64 |
| Bitops64.GenericCtzAtZero | bitops64.h:221-223 | as written, at x == 0, 63 - clz(0 & -0) would be -1 even with a clz that returned 64; ctz(0) is documented as 64 |
| Bitops64.ClzTotal | bitops64.h:186-201 | clz with the documented zero case handled before the loops equals the specification on every word |
| Bitops64.CtzTotal | bitops64.h:215-223 | ctz with the documented zero case handled equals the specification on every word |
| Mpz.Abs | BigInt.hpp:172-176 | the absolute value is v or -v and is non-negative |
| Mpz.Sgn | BigInt.hpp:190 | mpz_sgn is -1, 0 or 1 and agrees with the sign of v |
| Mpz.Cmp | BigInt.hpp:133-155 | the sign of mpz_cmp orders a against b: negative, zero or positive exactly when a < b, a == b or a > b |
| Mpz.TDivQ | BigInt.hpp:88-92 | \|q\| == \|n\| div \|d\|; a non-zero q has the product of the signs; the remainder n - q*d is smaller than \|d\| and has the sign of n |
| Mpz.TDivQUnique | BigInt.hpp:88-92 | truncated division has exactly one quotient |
| Mpz.Mod | BigInt.hpp:94-98 | mpz_mod gives 0 <= r < \|d\|, and \|d\| divides n - r |
| Mpz.ModUnique | BigInt.hpp:94-98 | that r is the only one |
| Mpz.ModIgnoresDivisorSign | BigInt.hpp:94-98 | the sign of the divisor does not change the result; 7 % -2 == 1 |
| Mpz.DivModIdentity | BigInt.hpp:88-98 | (n / d) * d + n % d == n holds exactly when n >= 0 or d divides n |
| Mpz.DivModIdentityFailsForNegative | BigInt.hpp:88-98 | -7 / 2 == -3 and -7 % 2 == 1, which add back to -5 |
| Mpz.Pow | BigInt.hpp:178-182 | mpz_pow_ui gives 0 exactly when the base is 0 and the exponent positive (0^0 is 1) |
| Mpz.PowAdd | BigInt.hpp:178-182 | b^(e1+e2) == b^e1 * b^e2 |
| Mpz.PowSign | BigInt.hpp:178-182 | b^0 == 1 in sign; 0^e == 0 for e > 0; negative exactly for a negative base and an odd exponent |
| Mpz.FloorSqrt | BigInt.hpp:184-188 | s*s <= n < (s+1)*(s+1) |
| Mpz.FloorSqrtUnique | BigInt.hpp:184-188 | the floor square root is the only such s |
| Mpz.OddP | BigInt.hpp:194 | mpz_odd_p holds exactly when bit 0 of \|a\| is set |
| Mpz.EvenP | BigInt.hpp:192 | mpz_even_p holds exactly when bit 0 of \|a\| is clear, and exactly when mpz_odd_p does not |
| Decimal.Format | BigInt.hpp:164-169 | mpz_get_str in base 10 is non-empty, starts with '-' exactly for a negative value, and otherwise holds the digits of the magnitude ("0" for 0) |
| Decimal.Parse | BigInt.hpp:30-35 | mpz_set_str in base 10, whose failure makes the constructor throw: a run of digits reads as the number it denotes, and white space alone is rejected |
| Decimal.SpaceIgnored | BigInt.hpp:30-35 | white space inserted anywhere in the text does not change what is read, as mpz_set_str skips it |
| Decimal.NatDigits | BigInt.hpp:164-169 | the digits of n denote n, have no leading zero, and are empty only for 0 |
| Decimal.Magnitude | BigInt.hpp:164-169 | the digits written for a magnitude are non-empty and denote it |
| Decimal.ParseFormat | BigInt.hpp:164-169 | the text written for any value is canonical and reads back as that value |
| Decimal.FormatParse | BigInt.hpp:30-35 | canonical text is accepted, and writing its value gives the same text back |
| Decimal.LeadingZeroIgnored | BigInt.hpp:30-35 | a leading zero does not change the number read |
| Decimal.RejectsNonDigit | BigInt.hpp:30-35 | text with a character that is neither a digit nor white space is rejected, except for a '-' right after the leading white space |
| Decimal.DigitsConcat | BigInt.hpp:30-35 | digits read one after another denote the first number shifted past the second, plus the second |
| Bignum.BigInt.constructor | BigInt.hpp:16 | a default object holds 0 |
| Bignum.BigInt.FromLong | BigInt.hpp:19 | construction from a long holds that long |
| Bignum.BigInt.FromULong | BigInt.hpp:22 | construction from an unsigned long holds that value |
| Bignum.BigInt.FromString | BigInt.hpp:30-35 | invalid_argument exactly when the text is rejected, and then no object exists; otherwise a fresh object holds the value read; canonical text comes back from to_string |
| Bignum.BigInt.Copy | BigInt.hpp:40 | a copy holds the value of the original |
| Bignum.BigInt.Move | BigInt.hpp:43-46 | the new object takes the value; the source is left at 0 |
| Bignum.BigInt.CopyAssign | BigInt.hpp:52-57 | the receiver takes the other's value; self-assignment changes nothing; the other is unchanged |
| Bignum.BigInt.MoveAssign | BigInt.hpp:60-67 | the receiver takes the other's value and the other is left at 0; self-move changes nothing |
| Bignum.BigInt.Add | BigInt.hpp:70-74 | a fresh object holding the sum |
| Bignum.BigInt.Sub | BigInt.hpp:76-80 | a fresh object holding the difference |
| Bignum.BigInt.Mul | BigInt.hpp:82-86 | a fresh object holding the product |
| Bignum.BigInt.Div | BigInt.hpp:88-92 | for a non-zero divisor, a fresh object holding the truncated quotient |
| Bignum.BigInt.Mod | BigInt.hpp:94-98 | for a non-zero divisor, a fresh object holding the non-negative remainder |
| Bignum.BigInt.Negate | BigInt.hpp:100-104 | a fresh object holding -v |
| Bignum.BigInt.AddAssign | BigInt.hpp:107-110 | the receiver becomes old receiver + old argument; a distinct argument is unchanged |
| Bignum.BigInt.SubAssign | BigInt.hpp:112-115 | the receiver becomes old receiver - old argument; a distinct argument is unchanged |
| Bignum.BigInt.MulAssign | BigInt.hpp:117-120 | the receiver becomes old receiver * old argument; a distinct argument is unchanged |
| Bignum.BigInt.DivAssign | BigInt.hpp:122-125 | the receiver becomes what operator/ returns on the old values; a distinct argument is unchanged |
| Bignum.BigInt.ModAssign | BigInt.hpp:127-130 | the receiver becomes what operator% returns on the old values; a distinct argument is unchanged |
| Bignum.BigInt.Equal | BigInt.hpp:133-135 | true exactly when the values are equal |
| Bignum.BigInt.NotEqual | BigInt.hpp:137-139 | true exactly when the values differ |
| Bignum.BigInt.Less | BigInt.hpp:141-143 | true exactly when v < other |
| Bignum.BigInt.LessEq | BigInt.hpp:145-147 | true exactly when v <= other |
| Bignum.BigInt.Greater | BigInt.hpp:149-151 | true exactly when v > other |
| Bignum.BigInt.GreaterEq | BigInt.hpp:153-155 | true exactly when v >= other |
| Bignum.ComparisonConsistent | BigInt.hpp:133-155 | exactly one of <, ==, > holds; != is not ==; <= is < or ==; >= is > or ==; a < b is b > a |
| Bignum.BigInt.ToLong | BigInt.hpp:158 | a value in the range of long converts to itself |
| Bignum.BigInt.ToULong | BigInt.hpp:160 | mpz_get_ui gives the low 64 bits of \|v\|: a value in [0, ULONG_MAX] converts to itself, and a negative v down to -ULONG_MAX converts to -v |
| Bignum.BigInt.ToString | BigInt.hpp:164-169 | the text is canonical and reads back as the value |
| Bignum.BigInt.Abs | BigInt.hpp:172-176 | a fresh object holding \|v\| |
| Bignum.BigInt.Pow | BigInt.hpp:178-182 | a fresh object holding v^exp |
| Bignum.BigInt.Sqrt | BigInt.hpp:184-188 | for v >= 0, a fresh object holding the floor square root |
| Bignum.BigInt.Sign | BigInt.hpp:190 | -1, 0 or 1 exactly when v is negative, zero or positive |
| Bignum.BigInt.IsEven | BigInt.hpp:192 | true exactly when 2 divides v |
| Bignum.BigInt.IsOdd | BigInt.hpp:194 | true exactly when 2 does not divide v |
| Bignum.EvenOddExclusive | BigInt.hpp:192-194 | exactly one of is_even and is_odd holds |
| BignumScenarios.Construction | tests/test_BigInt.cpp:9-21 | 42ul converts back to 42; "12345678901234567890" converts back to the same text |
| BignumScenarios.Arithmetic | tests/test_BigInt.cpp:23-35 | on 100 and 25: +, -, *, /, % and unary - give 125, 75, 2500, 4, 0 and -100 |
| BignumScenarios.CompoundAssignment | tests/test_BigInt.cpp:37-56 | 100 += 50, -= 30, *= 2, /= 4, %= 17 passes through 150, 120, 240, 60, 9 |
| BignumScenarios.Comparison | tests/test_BigInt.cpp:58-71 | the six comparisons of 100, 50 and 100 asserted by the test all hold |
| BignumScenarios.Utilities | tests/test_BigInt.cpp:73-89 | abs(-42) == 42, sign(-42) == -1, 2^10 == 1024, sqrt(16) == 4, 4 is even and not odd |
| LargeNumberText.ConstructionText | tests/test_BigInt.cpp:13-18 | "12345678901234567890" is accepted and written back unchanged |
| LargeNumberText.FirstLargeOperand | tests/test_BigInt.cpp:92 | "123456789012345678901234567890" reads as that number |
| LargeNumberText.SecondLargeOperand | tests/test_BigInt.cpp:93 | "987654321098765432109876543210" reads as that number |
| LargeNumberText.LargeSumText | tests/test_BigInt.cpp:96 | the sum is written as "1111111110111111111011111111100" |
| BignumScenarios.LargeNumbers | tests/test_BigInt.cpp:91-99 | the two 30-digit texts add to a value written as "1111111110111111111011111111100" |
| BignumScenarios.InvalidText | BigInt.hpp:30-35 | "12a" makes the string constructor fail |
| BignumScenarios.Move | BigInt.hpp:43-46 | moving an object holding 7 gives 7 and leaves the source at 0 |

## Left out

- The mini-gmp engine is not part of this model. mini-gmp.h and the mpz_* bodies are absent, so each routine is the integer function whose result GMP documents; limbs, allocation and carries are not modelled.
- The `double` and `float` constructors and `to_double` (BigInt.hpp:25-28, 162) and the float scenarios of the tests are left out: floating point is out of scope.
- Bignum.BigInt.ToLong: does not model `mpz_get_si` on values outside the range of `long`, because GMP leaves that result implementation-defined. `long` is taken to be 64 bits wide (LP64).
- Bignum.BigInt.ToULong: `unsigned long` is taken to be 64 bits wide (LP64), one limb of mini-gmp; on other platforms the bits kept would differ.
- Bignum.BigInt.FromString: does not model bases other than 10, because the digit alphabets of other bases live in the absent mini-gmp source. White space is the C locale's `isspace` set (space, tab, line feed, vertical tab, form feed, carriage return); other locales are not modelled.
- Bignum.BigInt.ToString: does not model bases other than 10, for the same reason.
- `mpz_init`/`mpz_clear` lifetimes, the destructor, `free` in `to_string`, `get_mpz` and `operator<<` are left out: they are memory handling and stream output with nothing to state about the value.
- The compiler intrinsics (`__builtin_clzll`, `__builtin_ctzll`, `_BitScanReverse64`, `_BitScanForward64`, `__shiftleft128`, `unsigned __int128`) are modelled by their documented meaning, not by an implementation. The `#if` selection between branches is not modelled: each branch is a separate set of members.
- The C `assert` preconditions of the `_nonzero` variants and of `lshift128` become `requires` clauses.
- Bignum.BigInt.Div and Bignum.BigInt.Mod: a zero divisor is excluded by `requires`, because mini-gmp aborts on it.
- Bignum.BigInt.Sqrt: a negative value is excluded by `requires`, because mpz_sqrt rejects it.
- The test programs' `main` and their console output are left out.
- One reading of `%` gives the remainder the divisor's sign. The code calls `mpz_mod` (BigInt.hpp:96), whose result is never negative whatever the signs, so the model follows the code; `Mpz.ModIgnoresDivisorSign` states it.

## Findings

| source | as written | input that shows it | evidently intended | confidence | as-written member | corrected member |
|---|---|---|---|---|---|---|
| bitops64.h:192-201 | the fallback `bitops64_clz` shifts x until its top byte, then its top bit, is non-zero | x == 0: x stays 0, so the first loop never ends | return 64 for x == 0, as the doc comment at bitops64.h:188 says | high (not executed) | Bitops64.GenericClzNeverExitsAtZero | Bitops64.ClzTotal |
| bitops64.h:221-223 | the fallback `bitops64_ctz` returns `63 - bitops64_clz(x & -x)` | x == 0: clz(0) does not return; had it returned the documented 64, the result would be -1 | return 64 for x == 0, as the doc comment at bitops64.h:217 says | high (not executed) | Bitops64.GenericCtzAtZero | Bitops64.CtzTotal |
