# nolibc: verified models of its arithmetic, search, printing and memory kernels

This project models the parts of the freestanding C library `nolibc`, and of the vendored OpenLibm,
where a fast algorithm stands for a one-line mathematical definition, and proves that it does.

- **Big integers and `strtod`** (`nolibc/dtoa.c`). Blocks of 32-bit words under a pool of free lists,
  the kernel on them (`multadd`, `mult`, `lshift`, `rshift`, `cmp`, `diff`, `increment`, `quorem`,
  `pow5mult` with its lazily grown cache, `s2b`, `d2b`), and the decisions that rest on them: the
  digit-by-digit half-way comparison of `bigcomp`, the hexadecimal reader `gethex`, and the fast path
  that multiplies a 64-bit significand by a 96-bit power of ten. The configuration is the one that is
  compiled: IEEE_8087, STRTOD_ONLY, ULLong, Pack_32, USE_BF96, round to nearest, one thread.
- **Substring search** (`nolibc/strstr.c`): the Two-Way algorithm with its combinatorics on words.
- **Printing** (`nolibc/vfprintf.c`, `nolibc/vsnprintf.c`): `%f` from the bits of the double to the
  characters of the field, the error of the limbs of `%e` and `%g`, the integer conversions, and the
  bounded buffer.
- **Memory and strings** (`nolibc/mem*.c`, `nolibc/str*.c`, `nolibc/stpncpy.c`): the word-at-a-time
  forms, and `strtol`.
- **`fmodl`** (`openlibm/ld128`, `openlibm/ld80`): exact remainders by shift and subtract.

Everything the source changes in place is changed in place here: word and limb arrays, blocks and
free lists, byte memory. Each such method is proved against a function of the old contents, and the
lemmas beside it say what that function means.

How values are read. A Bigint's `Value()` is its base-2^32 number (`Words.Val`). A binary64 pattern
is read in units of 2^-1074 (`Double.Mag`), so that `Double.IsNearestEven(r, v, u)` states
roundTiesToEven of v/u (section 4.3.1 of IEEE 754-2008) by midpoints alone, with no algorithm in it,
and infinity as the pattern from the overflow threshold on. The long double formats are read in units
of their own least subnormal; `Double.Landmarks` and its counterparts tie the readings to powers of
two. Characters are read and written against literal alphabets (`Glyphs`). Memory is an array of bytes
and an address an index, so that alignment is the index modulo the word size.

Where a statement is not true of the code as it stands, the code is kept and the exact condition is
proved:

- `GetHex.Gethex` is correctly rounded if and only if the literal is not one of those just below
  2^-1022 that round up to it; there the masked carry yields 0 (`GetHex.MaskedCarryExample`).
- `Bigcomp.CompareHalfway` answers for ten times the half-way value when the first quotient digit is
  0; `Bigcomp.RightUnlessRescaled` says exactly when that is still right, `Bigcomp.RescaledExample`
  shows that it may not be. `Halfway.Encloses` proves from the test strtod makes that its calls never
  get there, so that `Halfway.ChooseDouble` rounds correctly.
- A pattern the 96-bit fast path accepts is correctly rounded, normal or subnormal, if and only if the
  product cut to 64 bits is not exactly 2^-1075, half the least subnormal (`Bf96.FastPath`). There the
  words below are not looked at and the result is 0: `2470328229206232721e-342` is larger than 2^-1075
  and reads as 0 (`Bf96Table.CutToHalfExample`, `Bf96Table.ReadAsZero`).
- `%f` writes the digits of a number always within half a unit of the last place (`FmtText.Fixed`),
  and rounds ties to even if and only if there is no tie below an odd digit at a nine-digit limb
  boundary, where the parity test looks into the wrong limb: `"%.0f"` of 1.5 gives 1
  (`FmtFp.OneAndAHalf`).
- `"%#o"` with the 0 flag pads with spaces, because the precision it makes up for the leading zero
  counts as given: `"%#06o"` of 8 gives three spaces and `010` (`Printf.HashOctalExample`).
  `Printf.IsoUnlessHashOctal`: the text of an integer conversion is that of ISO C if and only if it is
  not `#o` with the 0 flag in force and a width above the digits and that zero.
- `strtol` of `"0x"` with no hexadecimal digit after it consumes nothing, where ISO C takes the `0`
  (`Strtol.LonePrefixExample`). `Strtol.IsoUnlessLonePrefix`: value and end are those of ISO C if and
  only if there is no such prefix.
- `strnlen` reads the byte at the limit before it looks at the count. `StringScan.Strnlen`: all reads
  stay inside the mapping if and only if the mapping does not end right at the limit with no
  terminator before it; `StringScan.StrnlenExample` is such a call.

The exact branch of the fast path does not look at a word it has dropped; that is right only because
no power up to 10^41 lets the dropped products cancel, which `TenEntries.NeverCancels` proves for all
of them.

## Layout

| files | what |
|---|---|
| `Arith`, `Words` | division, powers, base-2^32 numbers |
| `BigintPool`, `BigintOps`, `BigintCompare`, `BigintMult`, `BigintShift`, `Quorem`, `Dshift`, `S2b`, `D2b` | the Bigint engine |
| `Double`, `Bigcomp`, `Halfway`, `GetHex`, `TenEntries`, `Bf96Products`, `Bf96Subnormal`, `Bf96`, `Bf96Table` | the decisions of `strtod` |
| `CString`, `Periodicity`, `StrStr` | substring search |
| `Glyphs` | numerals as literal text |
| `FmtFp`, `FmtCut`, `FmtText`, `Printf`, `HexText` | printing |
| `FixedMod`, `Fmodl128`, `Fmodl80` | remainders |
| `Bytes`, `StringScan`, `Memcpy`, `Memmove`, `Memset`, `Stpncpy`, `Strtol` | memory and strings |

`dafny verify dfyconfig.toml` checks the whole project.

## Model

| member | source | states |
|---|---|---|
| BigintPool.Pool.constructor | nolibc/dtoa.c:1542-1552 | the allocator starts with empty free lists, an unused arena and no live block |
| BigintPool.Pool.NewBlock | nolibc/dtoa.c:1627-1640 | the block gets the next interval of the arena while it lasts, else none: the intervals of all blocks carved so far stay disjoint, large enough and inside PRIVATE_mem |
| BigintPool.Pool.Balloc | nolibc/dtoa.c:1602-1649 | the block last freed at this size, or a new one, and not a live one; over any sequence of calls live and free blocks are distinct and share no words, and every carved block is live or on the list of its size |
| BigintPool.Pool.Bfree | nolibc/dtoa.c:1651-1675 | the live block goes on top of the list of its size, or leaves the pool when larger than Kmax; nothing else moves, and null is ignored |
| BigintPool.Taken | nolibc/dtoa.c:1616-1619 | taking a block from a list keeps live blocks apart and loses no carved block |
| BigintPool.Given | nolibc/dtoa.c:1665-1669 | so does giving one back |
| BigintPool.Made | nolibc/dtoa.c:1627-1640 | carving keeps all intervals disjoint and inside the arena |
| BigintPool.FreeList.Pop | nolibc/dtoa.c:1616-1619 | takes the block last pushed and leaves the rest of the chain linked |
| BigintPool.FreeList.Push | nolibc/dtoa.c:1665-1669 | links a block in front, keeping all blocks distinct and of capacity 2^k |
| BigintOps.ScaleWords | nolibc/dtoa.c:1699-1718 | in place, new value + carry * BASE^n = old value * m + a |
| BigintOps.Multadd | nolibc/dtoa.c:1680-1730 | b * m + a exactly, in the next larger block if and only if the carry has no room, sign kept, still without a leading zero word |
| S2b.DigitsToBigint | nolibc/dtoa.c:1732-1763 | the number all nd digits write, the bytes of the decimal point skipped |
| Quorem.Hi0bits | nolibc/dtoa.c:1765-1792 | the number of leading zero bits, 32 for zero |
| D2b.Lo0bits | nolibc/dtoa.c:1794-1835 | the number of trailing zero bits and the odd rest, 32 for zero |
| BigintMult.I2b | nolibc/dtoa.c:1837-1846 | the one-word Bigint of i, in a block of two words |
| BigintMult.AddRow | nolibc/dtoa.c:1886-1895 | one row adds a * y at its place, the carry landing in a word that was zero |
| BigintMult.MultiplyWords | nolibc/dtoa.c:1876-1897 | the accumulated rows are the product |
| BigintMult.Mult | nolibc/dtoa.c:1848-1951 | a * b exactly, with no leading zero word, in a block of the longer operand's size or the next one, neither operand touched |
| BigintMult.Pow5Small | nolibc/dtoa.c:1961-1964 | multiplies by 5^(k mod 4) |
| BigintMult.FirstPower | nolibc/dtoa.c:1972-1989 | the cache starts with 5^4 |
| BigintMult.NextPower | nolibc/dtoa.c:1998-2015 | node j+1 is the square of node j, made on demand and linked; the nodes already there keep their words |
| BigintMult.PowerCache.Append | nolibc/dtoa.c:2011-2012 | the chain's j-th node is 5^(4*2^j), also with the new one |
| BigintMult.ExponentStep | nolibc/dtoa.c:1990-2016 | what is left to multiply in after one bit of the exponent |
| BigintMult.Pow5Loop | nolibc/dtoa.c:1990-2017 | b times the cached base power to the kk, for every kk |
| BigintMult.Pow5mult | nolibc/dtoa.c:1953-2018 | b * 5^k for every k; the cache only grows, of the live blocks only b was exchanged for the result, and over any sequence of calls every cached block stays live, so never freed and never on a free list |
| BigintMult.CachedStayLive | nolibc/dtoa.c:1998-2015 | exchanging a block that is not cached, and caching the blocks made, keeps all cached blocks live |
| BigintShift.ShiftWords | nolibc/dtoa.c:2043-2053 | the words shifted by 1 to 31 bits, the bits shifted out returned |
| BigintShift.LshiftWords | nolibc/dtoa.c:2037-2069 | zero words and shifted words are the value times 2^k |
| BigintShift.Lshift | nolibc/dtoa.c:2020-2073 | b * 2^k in the smallest block from its own size on with room for the words and one more, without a leading zero word, the old block freed |
| BigintCompare.Cmp | nolibc/dtoa.c:2075-2102 | the sign is the order of the values, and 0 only for equal ones |
| BigintCompare.LongerIsLarger | nolibc/dtoa.c:2081-2090 | why comparing lengths first decides: more words is a larger number |
| BigintCompare.SubtractWords | nolibc/dtoa.c:2144-2155 | word by word with borrow, the difference of the two numbers |
| BigintCompare.Diff | nolibc/dtoa.c:2104-2191 | the absolute difference, the sign field telling which was larger, trimmed |
| D2b.ShiftPair | nolibc/dtoa.c:2336-2345 | the or-ed and shifted words are the significand without its trailing zeros |
| D2b.SignificandWords | nolibc/dtoa.c:2333-2360 | an odd number and k with odd * 2^k the significand |
| D2b.DoubleToBigint | nolibc/dtoa.c:2295-2418 | the double is b * 2^e exactly, with b odd and of the reported bit length, normal or subnormal |
| BigintOps.IncrementWords | nolibc/dtoa.c:2662-2668 | adds one, or wraps to zero and reports the carry |
| BigintOps.Increment | nolibc/dtoa.c:2654-2679 | b + 1, in the next larger block if and only if every word carries and there is no room |
| BigintShift.Rshift | nolibc/dtoa.c:2685-2712 | floor(b / 2^k) in place, trimmed |
| BigintShift.ShiftWordsDown | nolibc/dtoa.c:2696-2705 | the in-place shift by words and bits is division by the power of two |
| BigintShift.AnyOn | nolibc/dtoa.c:2714-2738 | true exactly when b mod 2^k is not zero |
| BigintShift.BitsLost | nolibc/dtoa.c:2726-2730 | shifting down and up again changes a word exactly when a low bit is set |
| GetHex.HexDigitIs | nolibc/dtoa.c:2525-2549 | the hexadecimal digits are the 22 characters 0-9, a-f and A-F, each with its place in the alphabet, and no other |
| GetHex.HexValIs | nolibc/dtoa.c:2929-2945 | the number a literal writes is the one its characters spell in base 16, the points skipped |
| GetHex.NumeralIsHex | nolibc/dtoa.c:2918-2946 | the digits of a number in base 16, in either case, are a literal that reads as that number |
| GetHex.PackWords | nolibc/dtoa.c:2922-2946 | the words are the number the hexadecimal digits write, the point skipped |
| GetHex.BlockForHex | nolibc/dtoa.c:2918-2921 | the block has a word for every eight digits, and is the smallest that has |
| GetHex.LostBits | nolibc/dtoa.c:2954-2962 | lostbits places the part cut off: none, below, on or above the middle |
| GetHex.Normalize | nolibc/dtoa.c:2948-2971 | 53 significant bits, the exponent and lostbits that together are the literal |
| GetHex.NormalSplit | nolibc/dtoa.c:2948-2971 | lostbits is where the literal lies between neighbouring multiples of its last place |
| GetHex.SubnormalSplit | nolibc/dtoa.c:3021-3030 | the same after cutting down to 2^-1074: earlier losses only make the rest sticky |
| GetHex.SubnormalLost | nolibc/dtoa.c:3021-3027 | the recomputed lostbits |
| GetHex.RoundUpNormal | nolibc/dtoa.c:3048-3066 | adds one and renormalises exactly when that carries out of 53 bits |
| GetHex.FinishNormal | nolibc/dtoa.c:3032-3073 | the pattern of the rounded significand |
| GetHex.FinishSubnormal | nolibc/dtoa.c:2996-3073 | the subnormal pattern, bit 20 of the high word cleared even after a carry |
| GetHex.SubnormalIsNearest | nolibc/dtoa.c:3069-3070 | the subnormal result is nearest unless its carry into 2^-1022 is masked off |
| GetHex.TinyIsNearest | nolibc/dtoa.c:2998-3020 | below the least subnormal, zero or the least subnormal is nearest |
| GetHex.Gethex | nolibc/dtoa.c:2918-3108 | for a literal of any length the pattern is the roundTiesToEven double, overflow infinity, if and only if the literal does not carry into 2^-1022; then it is 0; no block stays behind |
| GetHex.MaskedCarryExample | nolibc/dtoa.c:3069-3070 | 0x1fffffffffffffp-1075 is such a literal: it reads as 0 where 2^-1022 is nearest |
| HexText.PrintAndRead | nolibc/dtoa.c:2918-3108 | gethex reads back what "%x" or "%X" printed: the nearest double, and the number itself below 2^53 |
| Dshift.ShiftCount | nolibc/dtoa.c:3111-3118 | the shift that leaves the top word four leading zero bits, modulo 32 |
| Dshift.AlignDivisor | nolibc/dtoa.c:3348-3352 | the shifted divisor has exactly four leading zero bits |
| BigintOps.SubMulWords | nolibc/dtoa.c:3157-3186 | b - q * S over n words, for q * S not above b, through every borrow; the words above untouched |
| Quorem.EstimateOfTops | nolibc/dtoa.c:3145 | the quotient of the top words is never too high and too low by less than two |
| Quorem.Estimate | nolibc/dtoa.c:3145-3193 | with four leading zero bits in the divisor the estimate is low by at most one, so one correction is enough |
| Quorem.QuoRem | nolibc/dtoa.c:3120-3237 | returns floor(b / S) and leaves b mod S, trimmed, with no word at all exactly for a zero left over from one word |
| Bigcomp.CompareRun | nolibc/dtoa.c:3364-3385 | a run of equal digits leaves the remainder of the half-way value, an unequal one decides |
| Bigcomp.NextDigit | nolibc/dtoa.c:3372-3373 | quotient digit and remainder of ten times the remainder are the next place of b/d |
| Bigcomp.CompareHalfway | nolibc/dtoa.c:3357-3387 | the sign of dd is the sign of (d1.d2d3... minus b/d), for any number of digits, zeros at the end of an integer read or not, the value compared being ten times as large after a zero first digit |
| Bigcomp.WithoutZeros | nolibc/dtoa.c:3364-3385 | zeros past the last digit that counts do not change the answer |
| Bigcomp.RightUnlessRescaled | nolibc/dtoa.c:3357-3360 | the answer is right for b/d itself exactly when the first digit is not zero, or the input exceeds even ten times b/d |
| Bigcomp.RescaledExample | nolibc/dtoa.c:3357-3360 | 1 against 9/10 over an aligned divisor: the rescaled comparison answers below, the true order is above |
| Halfway.LastPlace | nolibc/dtoa.c:3296-3314 | shifting by P - bbits, but not below 2^-1074, brings the number to the last place of the double, normal or subnormal |
| Halfway.HalfwayBigint | nolibc/dtoa.c:3268-3331 | b is the middle between rv and the next double, also from zero and from a scaled rv |
| Halfway.RatioOf | nolibc/dtoa.c:3331-3352 | the powers of five and two on both sides leave the ratio that middle over 10^p5 |
| Halfway.Operands | nolibc/dtoa.c:3265-3355 | the set-up as a whole: b/d is the half-way value over 10^p5, d aligned and b short enough for quorem |
| Halfway.SignOfInput | nolibc/dtoa.c:3354-3387 | the sign against b/d is the sign of the input less the half-way value |
| Halfway.CalledNear | nolibc/dtoa.c:4394-4399 | as strtod calls it with a nonzero rv, the half-way value has a nonzero first digit: the rescaling never happens |
| Halfway.BelowNext | nolibc/dtoa.c:4278-4281 | eighteen digits determine a double: what is cut off counts for less than half a unit in the last place |
| Halfway.Encloses | nolibc/dtoa.c:4276-4399 | from the test alone, rv not above the cut input and that not above the middle: the whole input lies between rv and the next double, and the half-way value is near 10^p5, for a zero rv as well |
| Halfway.NearZero | nolibc/dtoa.c:3268-3288 | for rv = 0 the half-way value has its first digit at 10^-324 and at no other place |
| Halfway.OddTie | nolibc/dtoa.c:3436-3446 | the bit looked at on a tie is the parity of the unscaled double, subnormals included |
| Halfway.ChooseDouble | nolibc/dtoa.c:3257-3457 | called as strtod calls it, keeping rv or taking the next double is rounding to nearest, ties to even, for digits of any number; no block but the cache's stays behind |
| Double.Landmarks | nolibc/dtoa.c:2990-3073 | the patterns of the least subnormal, the least normal, 1.0 and infinity read as 1, 2^52, 2^1074 and 2^2098 units |
| Double.Spacing | nolibc/dtoa.c:2990-3073 | within one exponent the patterns step by the same power of two |
| Double.MagIncreases | nolibc/dtoa.c:2990-3073 | consecutive patterns are consecutive in value, across every exponent boundary |
| Double.RoundedPattern | nolibc/dtoa.c:3032-3073 | rounding the significand and letting the carry run into the exponent field is rounding the number |
| Double.NormalNearest | nolibc/dtoa.c:4002-4019 | with an exponent past the largest, infinity is the rounded value |
| Bf96Products.TableEntries | nolibc/dtoa.c:752-753 | entries of the table are such truncations, one inexact and one exact |
| Bf96Products.ShiftLeft | nolibc/dtoa.c:3844-3870 | the significand moved up to fill 64 bits, and how far |
| Bf96Products.ThreeProducts | nolibc/dtoa.c:3874-3883 | 0 <= exact product - t00 < 3, in units of t00, the truncation of the power included |
| Bf96Products.FiveProducts | nolibc/dtoa.c:3920-3928 | the same bound for the 96-bit approximation, in units 2^32 times smaller |
| Bf96.ThreeMultiplies | nolibc/dtoa.c:3874-3883 | the three 32 x 32 products carry what that bound needs |
| Bf96Products.ScaledWindow | nolibc/dtoa.c:3843-3871 | the decimal value, whatever digits follow the 19th, lies between the product and its excess |
| Bf96Products.Decide | nolibc/dtoa.c:3885-3898 | a product known to within a few units, off the halves, fixes significand and rounding |
| Bf96Products.ThreeSuffice | nolibc/dtoa.c:3884-3917 | the three-product answer is decided by the low bits the source tests |
| Bf96.SameHalf | nolibc/dtoa.c:3886-3903 | the test for more than 19 digits: the rest cannot move the product out of its half |
| Bf96.ExactPower | nolibc/dtoa.c:3922-3924 | up to 10^41 the 96-bit entry is exact, a power of five shifted, since 5^41 < 2^96 |
| TenEntries.NeverCancels | nolibc/dtoa.c:753-794 | for no exact entry and no significand do the two products of weight 2^32 add up to 2^64 with nothing left in the word above |
| TenEntries.OnlyOne | nolibc/dtoa.c:753-794 | a 96-bit entry is determined by its power of five |
| Bf96.CarryMarksDropped | nolibc/dtoa.c:4083-4085 | on a half, tlo would have a carry exactly when a nonzero word was dropped |
| Bf96.NothingDropped | nolibc/dtoa.c:3971-3989 | with an exact entry there is neither: on a half nothing was dropped |
| Bf96.ExactTop | nolibc/dtoa.c:3971-3989 | the exact branch is nearest, although it does not look at the dropped word |
| Bf96.ExactNext | nolibc/dtoa.c:4068-4086 | its lower twin is always nearest |
| Bf96Products.FinishTop | nolibc/dtoa.c:4002-4020 | the assembled pattern is that of the rounded significand, capped at infinity |
| Bf96Products.FinishNext | nolibc/dtoa.c:4097-4115 | the same, one place lower |
| Bf96.SecondStage | nolibc/dtoa.c:3918-4117 | whenever the 96-bit stage accepts, the pattern is nearest, ties to even, if and only if the product is not cut to half the least subnormal |
| Bf96.SubnormalStage | nolibc/dtoa.c:3930-3969 | the subnormal results of the 96-bit stage: t00 rounded at 2^-1074 by the bit below is nearest, and no tie occurs |
| Bf96Subnormal.SubnormalNearest | nolibc/dtoa.c:3885-3907 | so is that of the three-product stage, which never meets the exception |
| Bf96Subnormal.NearestUnits | nolibc/dtoa.c:3945-3969 | a product off the halves stays off the larger halves of a subnormal, and fixes its rounding |
| Bf96Subnormal.DenormalTop | nolibc/dtoa.c:3933-3969 | the pattern is the whole number of units nearest t00 * 2^(erv-12), also through the wrap-around into 2^-1022, but 0 for t00 = 2^63 on half a unit |
| Bf96Subnormal.DenormalNext | nolibc/dtoa.c:4026-4066 | the same, one place lower |
| Bf96.AwayPasses | nolibc/dtoa.c:3928-3932 | a product 18 units of 2^64 from the halves, and not just at a word boundary, passes the tests on the low bits of the 96-bit stage |
| Bf96Table.LeastEntryTruncates | nolibc/dtoa.c:411 | the entry of 10^-342 is its truncation to 96 bits |
| Bf96Table.CutToHalfExample | nolibc/dtoa.c:3941 | 2470328229206232721e-342 meets the exception, and neither stage gives up on it |
| Bf96Table.ReadAsZero | nolibc/dtoa.c:3941 | it comes out as 0, where the least subnormal is nearest and 0 is not |
| Bf96.FarAccepts | nolibc/dtoa.c:3885-3902 | a product three units away from the halves always passes the tests on the low bits of t00 |
| Bf96.FastPath | nolibc/dtoa.c:3844-4117 | whenever the fast path accepts a result, normal or subnormal, for any number of digits, it is the round-to-nearest value of the decimal input if and only if the product is not cut to half the least subnormal; up to 19 digits it does not give up on a product three units of 2^96, or 18 of 2^64, away from the halves |
| Bf96Table.TooSmall | nolibc/dtoa.c:3839-3840 | below 10^-342 every significand rounds to 0 |
| Bf96Table.TooLarge | nolibc/dtoa.c:3841-3842 | from 10^309 on every significand rounds to infinity |
| Bf96Table.Scaled | nolibc/dtoa.c:3838-4117 | the same law with the range tests and the table in front, for every exponent |
| Periodicity.ExtendDominates | nolibc/strstr.c:47-61 | reading one more byte keeps the suffix maximal so far |
| Periodicity.BeatsThroughLater | nolibc/strstr.c:53-60 | a suffix that beats the maximal one beats everything that one beat |
| Periodicity.CriticalFactorization | nolibc/strstr.c:82-83 | at the later of the two maximal suffixes every local repetition is a period of the whole needle, and longer than the left part |
| Periodicity.ShortPeriodIsPeriodic | nolibc/strstr.c:85-89 | a period no longer than the right part makes the right part's least period one of the needle |
| StrStr.MaximalSuffix | nolibc/strstr.c:45-80 | the start and least period of the largest suffix, under either byte order |
| StrStr.CriticalPosition | nolibc/strstr.c:82-83 | the later start and its period |
| StrStr.LeftPartRecurs | nolibc/strstr.c:86 | the comparison is true exactly when the left part recurs one period on |
| StrStr.MakePlan | nolibc/strstr.c:45-90 | when the left part recurs the step is the period, and the rest is remembered; else the step is one more than the longer part, which is no longer than any period |
| StrStr.Measure | nolibc/strstr.c:40-43 | the needle's length and the last position of each byte, or that the haystack is too short |
| StrStr.ExtendWindow | nolibc/strstr.c:97-106 | through memchr with a bound that may lie past the mapping, the needle still fits in front of the terminator exactly when the window says so |
| StrStr.LastByteShift | nolibc/strstr.c:108-122 | the shifts by l, by the table and by l - p skip no occurrence |
| StrStr.RightMismatchShift | nolibc/strstr.c:124-130 | no occurrence starts before a shift by k - ms |
| StrStr.RightMatchShift | nolibc/strstr.c:131-135 | once the right part matched, no occurrence starts before a shift by p |
| StrStr.RaisedShift | nolibc/strstr.c:113 | with bytes remembered a shift below the period may be raised to l - p |
| StrStr.Search | nolibc/strstr.c:95-136 | the search loop terminates and returns the leftmost occurrence, the remembered bytes always matching |
| StrStr.TwoWay | nolibc/strstr.c:33-137 | the leftmost occurrence or null, for every needle of two bytes or more |
| StrStr.WindowWord | nolibc/strstr.c:4-25 | the rolling words agree exactly when the needle occurs in the window |
| StrStr.TwoByte | nolibc/strstr.c:4-9 | the leftmost occurrence of a two-byte needle, or null |
| StrStr.ThreeByte | nolibc/strstr.c:11-17 | the same for three bytes |
| StrStr.FourByte | nolibc/strstr.c:19-25 | the same for four bytes |
| StrStr.Strstr | nolibc/strstr.c:139-155 | strstr returns the leftmost occurrence, and null exactly when there is none, for every haystack and needle in memory |
| StrStr.Strchr | nolibc/strstr.c:145 | the first byte of the needle, by the word-at-a-time scan, or null |
| FixedMod.ShiftSubtract | openlibm/ld128/e_fmodl.c:91-103 | the loop keeps the remainder below twice the divisor and ends with x * 2^n mod y, also through the early exit at zero |
| FixedMod.Normalise | openlibm/ld128/e_fmodl.c:108-111 | the remainder filled up, its exponent lowered by as much |
| FixedMod.Aligned | openlibm/ld128/e_fmodl.c:65-92 | the remainder of the aligned significands is the remainder of the numbers |
| FixedMod.Reduce | openlibm/ld80/e_fmodl.c:110-131 | both limb sizes: zero exactly when y divides x, else the normalised remainder |
| Fmodl128.Landmarks | openlibm/ld128/e_fmodl.c:38-42 | the words of zero, the least subnormal, 1.0 and infinity read as 0, 1, 2^16494 and 2^32878 units |
| Fmodl128.NextMag | openlibm/ld128/e_fmodl.c:41-45 | a step in the low word is a step of the last place, carrying into the high word |
| Fmodl128.RejectsIs | openlibm/ld128/e_fmodl.c:38-42 | the test on the words is: y is 0 or a NaN, or x is not finite; an infinite y is not rejected |
| Fmodl128.MagIncreases | openlibm/ld128/e_fmodl.c:41-45 | comparing the words compares the magnitudes |
| Fmodl128.Ilogb | openlibm/ld128/e_fmodl.c:47-63 | the exponent, subnormals of either word included |
| Fmodl128.ShiftUp | openlibm/ld128/e_fmodl.c:68-77 | a subnormal's significand moved up, across the words or a whole word |
| Fmodl128.ShiftDown | openlibm/ld128/e_fmodl.c:115-124 | a subnormal result's significand moved down, by all three ranges of shifts |
| Fmodl128.Encode | openlibm/ld128/e_fmodl.c:111-127 | the pattern of the normalised remainder, normal or subnormal, exactly |
| Fmodl128.Fmodl | openlibm/ld128/e_fmodl.c:25-129 | no number exactly when the magnitude of y is 0 or above that of infinity, or that of x is not below it; else the sign of x and exactly the remainder |
| Fmodl80.Landmarks | openlibm/ld80/e_fmodl.c:66-71 | the fields of zero, the least subnormal, 1.0 and infinity read as such powers of two |
| Fmodl80.RejectsIs | openlibm/ld80/e_fmodl.c:66-71 | the test on the fields is: y is 0 or a NaN, or x is not finite |
| Fmodl80.MagIncreases | openlibm/ld80/e_fmodl.c:75-86 | comparing exponent and significand compares the magnitudes |
| Fmodl80.SetUp | openlibm/ld80/e_fmodl.c:88-108 | significand and exponent, a subnormal scaled by 2^512 |
| Fmodl80.ScaleDown | openlibm/ld80/e_fmodl.c:132-141 | the rebuilt number is the remainder exactly, normal or subnormal |
| Fmodl80.Fmodl | openlibm/ld80/e_fmodl.c:53-142 | the same law as for the 128-bit format |
| FmtFp.Expand | nolibc/vfprintf.c:298-301 | the limbs are the significand exactly, at most four of them |
| FmtFp.MultiplyLimbs | nolibc/vfprintf.c:306-310 | one pass multiplies by 2^sh, every limb staying below 10^9 |
| FmtFp.DivideLimbs | nolibc/vfprintf.c:318-322 | one pass divides by 2^sh, every limb staying below 10^9 |
| FmtFp.ScaleUp | nolibc/vfprintf.c:303-314 | the loop multiplies by 2^e2 exactly, within the array, and opens a limb only for a carry: none in front is zero |
| FmtFp.FewLimbs | nolibc/vfprintf.c:210-211 | a multiple of 2^-1074 needs at most 120 limbs of fraction, so the array is never overrun |
| FmtFp.KeptStep | nolibc/vfprintf.c:315-330 | each turn keeps the limbs the value truncated at their last one, complete unless cut |
| FmtFp.ScaleDown | nolibc/vfprintf.c:315-330 | the loop divides by 2^-e2, exactly or truncated at the precision cut |
| FmtFp.Limbs | nolibc/vfprintf.c:291-330 | the limb array is y * 2^e2, complete, or cut beyond the digits asked for, from its first nonzero limb on |
| FmtFp.DigitSplit | nolibc/vfprintf.c:342-351 | the dropped part of the limb and whether more follows place the value against the tie |
| FmtFp.ProbeIsNearest | nolibc/vfprintf.c:346-355 | the double nearest to round + small differs from round exactly when the dropped part is more than half a unit, or half of it with an odd digit kept |
| FmtFp.PropagateCarry | nolibc/vfprintf.c:357-361 | the carry leaves the value unchanged, opening a new limb in front when needed |
| FmtFp.Exponent | nolibc/vfprintf.c:331-332 | e counts the digits in front of the point after the first, and is not positive below 10 |
| FmtFp.RoundAt | nolibc/vfprintf.c:334-367 | the kept digits are within half a unit, ties to even if and only if not at a limb boundary below an odd digit; the exponent follows a carry, and no zero limb stands in front |
| FmtFp.FixedDigits | nolibc/vfprintf.c:291-368 | for every double and precision the limbs read as the value rounded at that place, with that exception, from a nonzero limb on, e counting the digits of the whole part |
| FmtFp.OneAndAHalf | nolibc/vfprintf.c:348 | "%.0f" of 1.5 is the exception: it is 1 |
| FmtText.LimbText | nolibc/vfprintf.c:405-409 | a limb with nine digits, or without zeros in front but at least one digit |
| FmtText.WriteWhole | nolibc/vfprintf.c:404-410 | the limbs up to the units come out as the digits of one whole number, without a zero in front |
| FmtText.WriteFraction | nolibc/vfprintf.c:412-417 | the limbs after them come out as exactly p digits, cut or filled with zeros |
| FmtText.ReadsText | nolibc/vfprintf.c:403-417 | for limbs that read as rr / 10^p those are the digits of the quotient and of the rest |
| FmtText.WholeLength | nolibc/vfprintf.c:388-391 | the length of the whole part is what e said before it was written |
| FmtText.SameRounding | nolibc/vfprintf.c:238-301 | rounding depends on the number alone, not on the fraction it is given as |
| FmtText.Frexp | nolibc/vfprintf.c:238-293 | significand and exponent are the double exactly, subnormals included |
| FmtText.PrintFixed | nolibc/vfprintf.c:291-437 | the field: sign, whole part, point, p digits, spaces or zeros to the width, and its length returned |
| FmtText.Fixed | nolibc/vfprintf.c:208-437 | "%f" of every double, flags, width and precision: the text ISO C asks for of the number rounded to p digits, within half a unit, ties to even with that one exception; infinities and NaNs by name, padded with spaces |
| FmtCut.WithinShifted | nolibc/vfprintf.c:318-324 | for %e and %g a shift that appends its carry keeps the relative error of the limbs |
| FmtCut.WithinCut | nolibc/vfprintf.c:326-327 | cutting to `need` limbs behind a nonzero leading one adds at most one part in 10^(9 (need - 1)) of the value |
| FmtCut.BitsOfLimbs | nolibc/vfprintf.c:210-211 | a nonzero last limb of fraction f means more than 9 (f - 1) bits of it, so that a cut expansion stays in the array too |
| FmtCut.CutTurn | nolibc/vfprintf.c:315-329 | one turn of the loop, the cut relative to the leading limb, which stays nonzero |
| FmtCut.ScaleDown | nolibc/vfprintf.c:315-330 | the loop loses at most one such part a turn and stays in the array |
| FmtCut.LimbsDown | nolibc/vfprintf.c:298-330 | for every double scaled down and every precision p the limbs are never too large, and too small by at most 123 parts in 10^(p + 17) of the value |
| Printf.Sink.Write | nolibc/vsnprintf.c:7-15 | the buffer holds the first bytes of everything written, and all is reported written |
| Printf.Sink.Terminate | nolibc/vsnprintf.c:38-39 | the terminator follows the first min(total, n-1) bytes |
| Printf.Vsnprintf | nolibc/vsnprintf.c:17-41 | for any sequence of writes: first min(total, n-1) bytes and a terminator, nothing beyond n touched, nothing at all for n = 0 |
| Printf.Sink.Pad | nolibc/vfprintf.c:166-175 | w - l copies in blocks of 256, or none |
| Printf.CharIs | nolibc/vfprintf.c:177-191 | the character of a digit is the one in the alphabet of its case |
| Printf.Format | nolibc/vfprintf.c:181-199 | the digits are the numeral of the argument in base 8, 10 or 16 and the case asked for, in literal characters, none for 0 |
| Printf.NumeralValue | nolibc/vfprintf.c:181-199 | a numeral reads back to its number and has no zero in front |
| Printf.AtMost22 | nolibc/vfprintf.c:560 | 64 bits need no more than 22 digits, so the buffer is never overrun |
| Printf.LayoutLength | nolibc/vfprintf.c:613-623 | exactly max(w, prefix + max(p, digits)) bytes |
| Printf.PartsMeant | nolibc/vfprintf.c:566-586 | sign or 0x and digits are those of the number meant, in two's complement for %d |
| Printf.EmittedIs | nolibc/vfprintf.c:587-623 | precision, flags and the pads make up the field of ISO C, or its padding with spaces for "%#o" |
| Printf.IsoUnlessHashOctal | nolibc/vfprintf.c:566-592 | the text is that of ISO C if and only if "%#o" with the 0 flag in force has nothing to pad |
| Printf.HashOctalExample | nolibc/vfprintf.c:566-592 | "%#06o" of 8 pads with spaces where ISO C has zeros |
| Printf.ZerosInFront | nolibc/vfprintf.c:617-619 | the padding zeros do not change the number read |
| Printf.Convert | nolibc/vfprintf.c:560-624 | an integer conversion emits the text of ISO C, given in literal characters: the digits of the number meant in base 8, 10 or 16, its precision, sign or 0x, and padding; with that one exception, whose text is given too |
| Printf.PrintAndRead | nolibc/strtol.c:42-150 | strtol reads back what "%d" printed, for every long, any flags, width and precision, without a range error, up to the padding on the right |
| Memcpy.MergeLoads | nolibc/memcpy.c:58-65 | shifting and or-ing two aligned words is the unaligned word across them |
| Memcpy.Misaligned | nolibc/memcpy.c:50-99 | the three merging loops copy, by loads and stores at multiples of four only |
| Memcpy.Aligned | nolibc/memcpy.c:25-47 | the aligned loop and its tail copy the rest |
| Memcpy.Rest | nolibc/memcpy.c:100-118 | the bits of the remaining count copy the rest |
| Memcpy.Memcpy | nolibc/memcpy.c:5-119 | the destination is the source as it was and no other byte changed, for every length and alignment |
| Memmove.Unwritten | nolibc/memmove.c:15-32 | the direction chosen never writes a source byte still to be read |
| Memmove.MoveWord | nolibc/memmove.c:21-30 | a word, aligned on both sides, is read whole before it is written |
| Memmove.Memmove | nolibc/memmove.c:7-36 | the destination is the source as it was and no other byte changed, for any overlap |
| Memset.Store | nolibc/memset.c:36-79 | 32-bit and 64-bit stores of c32 and c64, at multiples of their size, put c in every byte |
| Memset.HalvesOfWord | nolibc/memset.c:73 | c64 is c32 twice |
| Memset.Edges | nolibc/memset.c:13-20 | the first and last four bytes, or all of them up to eight |
| Memset.WordEdges | nolibc/memset.c:44-59 | up to 28 bytes of words at either end |
| Memset.Middle | nolibc/memset.c:65-79 | the loop's leftover is always covered by the tail already stored |
| Memset.Memset | nolibc/memset.c:4-86 | c in every byte of the range and in no other |
| Bytes.LittleHasZero | nolibc/strlen.c:6-8 | HASZERO is not zero exactly when some byte of the word is zero |
| Bytes.LittleHasByte | nolibc/memchr.c:19-20 | after the exclusive-or with ONES * c it is not zero exactly when some byte is c |
| StringScan.Strlen | nolibc/strlen.c:10-18 | the distance to the first zero byte, no word outside the mapping read |
| StringScan.Strnlen | nolibc/strnlen.c:10-20 | that distance, or the limit if there is none below it; a read outside the mapping if and only if it ends at the limit with no terminator before |
| StringScan.StrnlenExample | nolibc/strnlen.c:17 | eight bytes without a terminator at the end of the mapping: the ninth is read |
| StringScan.Memchr | nolibc/memchr.c:11-23 | the first c below the bound, or null exactly when there is none, also for a bound past the mapping when a c comes before its end; no read outside |
| StringScan.Strchrnul | nolibc/strchrnul.c:12-23 | the first byte that is c or the terminator |
| Stpncpy.WordStillThere | nolibc/stpncpy.c:18-20 | a word without a zero byte lies within the string and has not been written over; it is moved only where both sides are aligned |
| Stpncpy.Stpncpy | nolibc/stpncpy.c:10-27 | the field holds the string and then zeros, or its first n bytes, nothing else changed, the result at the first zero or the end |
| Strtol.Cutoff | nolibc/strtol.c:104-113 | the largest magnitude of the sign is cutoff * base + cutlim |
| Strtol.CutoffExact | nolibc/strtol.c:126-136 | the comparison with cutoff and cutlim is exactly "one more digit does not fit" |
| Strtol.TakeDigit | nolibc/strtol.c:123-145 | one digit: clamped for good, or multiplied in with no intermediate overflow |
| Strtol.SpaceIs | nolibc/ctype.c:18-21 | isspace is true of the six white-space characters and no other |
| Strtol.DigitIs | nolibc/strtol.c:115-122 | a character counts as d exactly when it is the d-th of 0-9 and the alphabet, in either case |
| Strtol.TakesSubject | nolibc/strtol.c:67-85 | what is skipped and read is white space, a sign, 0x and digits, each as long as it can be, in literal characters |
| Strtol.OneSubject | nolibc/strtol.c:67-122 | a string has one such numeral |
| Strtol.LongIs | nolibc/strtol.c:104 | LONG_MIN and LONG_MAX are -2^63 and 2^63 - 1 |
| Strtol.Strtol | nolibc/strtol.c:42-150 | the number that the characters of that numeral spell, clamped to 64 bits, ERANGE exactly when it does not fit, the end after its digits, or the start if there are none; the answer of ISO C if and only if there is no lone 0x |
| Strtol.IsoUnlessLonePrefix | nolibc/strtol.c:78-85 | value and end are those of the subject sequence of ISO C exactly when no 0x stands without a hexadecimal digit after it |
| Strtol.LonePrefixExample | nolibc/strtol.c:78-83 | "0x" in base 0: nothing is consumed where the digit 0 should be |

## Left out

- Bf96.FastPath: takes the table entry as the 96-bit truncation of the power of ten (`Truncates`) instead of 667 constants, of which it checks the first and those of 10^-1 and 10^0.
- Bf96Table.Scaled: the exact double products for at most 15 digits, and errno, are not part of this model.
- GetHex.Gethex: starts from the digits and the exponent of the last one; parsing the prefix and the exponent, and the exponents so large that the digits no longer matter, are not part of this model.
- Halfway.ChooseDouble: takes from strtod the outcome of the test that calls it (`Halfway.Calls`), and for a zero rv that the input starts at 10^-324; adding an ulp to rv is taking the next pattern.
- BigintPool.Pool.Balloc: the failure of malloc, and block sizes whose capacity leaves an int, are not modelled.
- BigintOps.SubMulWords: an empty Bigint reads as zero through its first word, which is what the do-while loops visit.
- StrStr.Measure: the byteset is 256 booleans rather than bits of words, and the index that starts at (size_t)-1 is the integer -1.
- FmtFp.FixedDigits: %f only; %e and %g cut relative to the leading limb, so that their last limbs are not exact: `FmtCut.LimbsDown` bounds the error, and the rounding of what is left at a digit counted from the leading one is not part of this model. The double probe that decides rounding is replaced by its outcome (`FmtFp.ProbeIsNearest`), for a negative number by symmetry; a precision near INT_MAX does not overflow.
- FmtText.Frexp: frexp is taken to be exact, so its result is computed from the pattern; the bits are those of the argument of printf_core.
- Printf.Convert: an int that counts more than INT_MAX bytes is not modelled, nor are %p, %c, %s and %n.
- Printf.Vsnprintf: the clamp against address wrap-around is not modelled.
- Fmodl80.Fmodl: the products by 2^512 and 2^-512 are the exact numbers they stand for; patterns the hardware does not produce are excluded.
- Memmove.MoveWord: a 64-bit word is the sequence of its eight bytes.
- Stpncpy.CopyWords: requires the mapping to consist of whole words, as do the scans, since they read the word around a byte.
- Strtol.Strtol: errno is the `range` flag, and a null end pointer is not distinguished.
- strtod's correction loop in double arithmetic, `ratio`, `b2d`, `ulp` and `sulp`: they need a model of double arithmetic with scaling.
- Flags of the floating-point environment, errno and signals of inexact results.
- The rest of OpenLibm, whose accuracy is a matter of real analysis.
- memcmp and strcmp: one-line byte loops, used here as definitions.
