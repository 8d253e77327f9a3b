# BigInt<Bits> — a Dafny model

`BigInt<Bits>` is a fixed-width unsigned integer. It stores its magnitude in a fixed array of
`NumLimbs = ceil(Bits / 64)` 64-bit limbs, least significant limb first (GNU MP's `mpn`
convention). The operations are:

- construction as zero, from a `uint64_t`, or from a digit string in a base from 2 to 256;
- `clear()`;
- printing with `to_string(base)`;
- `add`, `sub` and `mul` between operands of possibly different widths, each with a carry flag.

The arithmetic and the base conversions are handed to five GMP low-level routines. The model
describes those routines only by their documented contracts.

The model has six modules:

- `Wrappers` (wrappers.dfy): `Option` and `Result`.
- `Arithmetic` (arith.dfy): `Pow` and small lemmas about division and powers.
- `Limbs` (limbs.dfy):
  - the limb type `Limb`, the integers in [0, 2^64);
  - `NumLimbs`;
  - the value of a limb sequence, `LimbsValue(s) = sum of s[i] * 2^(64 i)`;
  - the count of significant limbs that `to_string` keeps.
- `Digits` (digits.dfy):
  - the constructor's character-to-digit map and `to_string`'s digit-to-character map;
  - the positional value of a digit string;
  - the canonical digits of a number and the string `to_string` prints;
  - the round trips between these.
- `Mpn` (mpn.dfy):
  - `mpn_add`, `mpn_sub` and `mpn_mul` as schoolbook loops over arrays, each proved against the
    value of the limbs;
  - `mpn_set_str` and `mpn_get_str` as positional-value functions.
- `BigInteger` (bigint.dfy):
  - the class `BigInt`, with the width `bits` and the limb array `limbs` as fields;
  - the constructors, `Clear`, `FromString`, `ToString`, `Add`, `Sub` and `Mul`;
  - the `operator+` stub of the earlier copy of the class, as `Plus`.

The repository has an earlier copy of the class in bigint.cpp. Its constructors (bigint.cpp:24-55),
`clear` (65-67) and `to_string` (72-104) match the header's line for line, so the same members
model both copies. Only its `operator+` stub (58-62) is separate; it is modelled as `Plus`.

The two exceptions the class throws become the `Error` values `InvalidBase` and
`InvalidCharacter` of a `Result`.

The methods `Add`, `Sub`, `Mul` and `ToString` have no `modifies` clause, so the verifier
establishes that they leave both operands' limbs unchanged. The result of `Add` is stated in
terms of `Value() + other.Value()` alone, so it is the same whichever operand is the receiver.

Some code paths have undefined behaviour: GMP is called outside its contract, or a buffer is
overrun. These paths are preconditions, not modelled outcomes:

- `FromString` requires `SetStrDefined`: a non-empty string, every digit below the base, and a
  value that fits in `NumLimbs(bits)` limbs.
- `ToString` requires `ScratchFits`: the scratch buffer of `actual_limbs * 64 / 3 + 10` bytes
  has the room the GMP manual asks of `mpn_get_str`'s destination, the digits of the largest
  `actual_limbs`-limb number plus one character (`Mpn.GetStrRoom`). `ScratchSuffices` proves
  this always holds from base 8 up. `ScratchShortOfRoomInBase2` proves it never holds in base 2.
  `ScratchTooSmallInBase2` shows that base 2 overruns the buffer in fact: every one-limb value of
  at least 2^32 has more digits than the buffer holds.
- `Mul` requires that the result's `NumLimbs(bits + other.bits)` limbs hold the `n1 + n2` limbs
  `mpn_mul` writes. `MulResultRoom` shows they always do when either width is a whole number of
  limbs, and that they do not for two 32-bit operands.

Some behaviour of the code is easy to misread. The model follows the code:

- The `uint64_t` constructor stores the whole word in limb 0 and does not reduce it to `Bits`
  bits (include/bigint.hpp:31-34); `FromU64` states this.
- The string constructor does not truncate a value too large for the limbs, and it rejects
  neither a digit at or above the base nor the empty string. It hands all three to
  `mpn_set_str` (include/bigint.hpp:43-57), whose contract they break. `SetStrDefined`
  excludes them.
- The `mul` flag is `mpn_mul`'s return value, the top limb of the product
  (include/bigint.hpp:159-164). It is set whenever the product reaches
  2^(64 (n1 + n2 - 1)), even though the product always fits in n1 + n2 limbs; `Mul` states this.
- `sub` passes the operand with more limbs first (include/bigint.hpp:137-141). When `other` has
  more limbs, the result is `other - this`, not `this - other`; `Sub` states both cases.
- The round trip `FromString(ToString(v, b), b) == v` holds only for bases up to 62 (see
  `FormatRoundTrip`). The character map stops at 'z' (include/bigint.hpp:50-51), and from
  base 63 up digit 62 prints as `{`, which the constructor rejects (`RoundTripFailsAbove62`).
  The 8-bit `char` narrowing at include/bigint.hpp:97 makes digit 243 print as `0`
  (`WrappedDigitPrintsAsZero`), so `ToString` returns "0" exactly for zero only in bases up to 243.

## Model

| member | source | states |
|---|---|---|
| Limbs.NumLimbs | include/bigint.hpp:22 | the limb count is the fewest limbs holding `bits` bits: n * 64 >= bits and (n - 1) * 64 < bits |
| BigInteger.BigInt.constructor | include/bigint.hpp:27-29 | a fresh array of NumLimbs(bits) limbs, every limb zero, value 0 |
| BigInteger.BigInt.FromU64 | include/bigint.hpp:31-34 | limb 0 holds the word unmasked, the other limbs are zero, and the value is the word |
| BigInteger.BigInt.FromString | include/bigint.hpp:37-58 | a bad base gives InvalidBase before any character is examined; a character outside the alphabet gives InvalidCharacter; otherwise a fresh valid object whose value is the positional value of the mapped digits |
| BigInteger.MapDigits | include/bigint.hpp:43-54 | the character loop yields exactly the digit string of ParseDigits, or None as soon as a character is outside the alphabet |
| Digits.CharToDigit | include/bigint.hpp:45-53 | an accepted character maps to a digit below 62; DigitCharRoundTrip gives the map its meaning as the inverse of DigitToChar |
| Digits.DigitCharRoundTrip | include/bigint.hpp:44-53 | the constructor's character map and to_string's digit map invert each other on digits below 62 and on every accepted character |
| Digits.ParseRender | include/bigint.hpp:44-53 | printing the digits of an accepted string gives the string back |
| Digits.RenderParse | include/bigint.hpp:90-98 | printed digits below 62 read back as the same digits |
| Mpn.SetStr | include/bigint.hpp:57 | mpn_set_str's n limbs have the positional value of the digits, given at least one digit, digits below the base, and room |
| Limbs.FromNatValue | include/bigint.hpp:57 | the n-limb encoding of a number below 2^(64 n) has that number as its value |
| BigInteger.BigInt.Clear | include/bigint.hpp:62-64 | every limb becomes zero and the value is 0 |
| Limbs.ValueZero | include/bigint.hpp:62-64 | the value is zero exactly when every limb is zero |
| BigInteger.BigInt.ToString | include/bigint.hpp:69-101 | a bad base gives InvalidBase; otherwise the result is the canonical digits of the value, mapped to characters; up to base 243 it is "0" exactly when the value is zero |
| BigInteger.BigInt.SignificantCount | include/bigint.hpp:73-75 | the trimming loop stops at the count of limbs below the highest non-zero limb |
| Limbs.SignificantLimbsExact | include/bigint.hpp:73-75 | the trimmed count is the unique k with all limbs from k up zero and limb k - 1 non-zero |
| Limbs.SignificantLimbsBounds | include/bigint.hpp:73-75 | the limbs above the trimmed count are zero and the top kept limb is not |
| Limbs.TrimmedValue | include/bigint.hpp:73-80 | trimming keeps the value, leaves nothing exactly for zero, and otherwise leaves a non-zero top limb as mpn_get_str requires |
| Digits.FormatZero | include/bigint.hpp:77 | up to base 243 the printed string is "0" exactly for the value zero |
| Mpn.GetStr | include/bigint.hpp:85 | mpn_get_str's digits are below the base, start with a non-zero digit, and have the value of the limbs |
| Digits.ToDigits | include/bigint.hpp:85 | the digits of a positive number are non-empty, below the base, without a leading zero, and worth the number |
| Digits.ToDigitsUnique | include/bigint.hpp:85 | such digits are unique: any digits below the base without a leading zero are ToDigits of their value |
| Digits.DigitsLowerBound | include/bigint.hpp:83 | n digits without a leading zero are worth at least base^(n - 1) |
| Digits.DigitsUpperBound | include/bigint.hpp:83 | n digits below the base are worth less than base^n |
| Digits.DigitsAtLeastPow2 | include/bigint.hpp:83 | from base 8 up, n digits without a leading zero are worth at least 2^(3 (n - 1)) |
| Limbs.ValueBelowPow2 | include/bigint.hpp:83 | a value with k significant limbs is below 2^(64 k) |
| Mpn.GetStrRoomBound | include/bigint.hpp:83-85 | the room mpn_get_str asks for, the digits of the largest n-limb number plus one, exceeds the digit count of every positive n-limb number |
| Digits.ToDigitsLengthMonotonic | include/bigint.hpp:83-85 | a larger number never has fewer digits |
| BigInteger.ScratchSuffices | include/bigint.hpp:83 | from base 8 up the actual_limbs * 64 / 3 + 10 byte buffer has the room mpn_get_str asks for, for every limb count |
| BigInteger.ScratchShortOfRoomInBase2 | include/bigint.hpp:83 | in base 2 the buffer is always short of that room: 64 k + 1 exceeds 64 k / 3 + 10 |
| BigInteger.ScratchTooSmallInBase2 | include/bigint.hpp:83 | in base 2 every one-limb value from 2^32 up has more digits than the buffer holds |
| BigInteger.RenderDigits | include/bigint.hpp:88-98 | the character loop produces exactly the mapped characters of the first count raw digits |
| Digits.DigitToChar | include/bigint.hpp:90-98 | every produced character fits the 8-bit char |
| Digits.WrappedDigitPrintsAsZero | include/bigint.hpp:96-97 | digit 243 narrows to '0', so in base 244 the value 243 prints exactly like zero |
| Digits.RoundTripFailsAbove62 | include/bigint.hpp:96-97 | digit 62 prints as '{', which the constructor rejects, so in base 63 the printed 62 does not read back |
| Digits.FormatRoundTrip | include/bigint.hpp:69-101 | up to base 62 every printed value reads back as digits worth that value |
| Digits.ParseFormatRoundTrip | include/bigint.hpp:37-58 | an accepted string with digits below the base and no leading '0' prints back unchanged from its value |
| BigInteger.TestVectors | test/test_bigint.cpp:19-36 | 255 prints as "FF" in base 16, zero prints as "0" in bases 10 and 16, and "1ABCDEF" read in base 16 prints back unchanged |
| BigInteger.WordTestVector | test/test_bigint.cpp:7-10 | the word 123456789 prints in base 10 as "123456789" |
| BigInteger.DecimalTestVector | test/test_bigint.cpp:12-16 | "123456789" read in base 10 prints back unchanged |
| BigInteger.BigInt.Add | include/bigint.hpp:103-123 | the result has the wider operand's width and limbs; result + carry * 2^(64 R) is the sum, so the result is the sum mod 2^(64 R) and the carry is set exactly when the sum does not fit |
| BigInteger.NumLimbsMax | include/bigint.hpp:105-108 | the max width has as many limbs as the wider operand |
| BigInteger.CarrySplit | include/bigint.hpp:121 | a value below m plus a 0/1 carry times m that equals a sum is the sum mod m, with the carry set exactly when the sum reaches m |
| Mpn.Add | include/bigint.hpp:116 | mpn_add writes the s1n low limbs of the sum, returns a carry of 0 or 1 with result + carry * 2^(64 s1n) equal to the sum, and writes nothing beyond s1n |
| Limbs.ValueBound | include/bigint.hpp:116 | n limbs are worth less than 2^(64 n) |
| BigInteger.BigInt.Sub | include/bigint.hpp:125-145 | with this operand at least as wide, the result is (this - other) mod 2^(64 R) and the carry is set exactly when this < other; otherwise the operands are swapped |
| Mpn.Sub | include/bigint.hpp:138 | mpn_sub writes the difference mod 2^(64 s1n), returns a borrow of 1 exactly when the subtrahend is larger, and writes nothing beyond s1n |
| BigInteger.BigInt.Mul | include/bigint.hpp:147-166 | the result has width bits + other.bits and holds the exact product; the carry is the top product limb being non-zero, which holds exactly when the product reaches 2^(64 (n1 + n2 - 1)) |
| BigInteger.MulResultRoom | include/bigint.hpp:148-154 | the result's limbs never exceed n1 + n2, match it when either width is a multiple of 64, and fall short for 32 x 32 bits |
| Mpn.Mul | include/bigint.hpp:159 | mpn_mul writes the exact product into s1n + s2n limbs, returns the top limb, and writes nothing beyond |
| Mpn.AddMulRow | include/bigint.hpp:159 | one schoolbook row adds s1 * d into the destination window, returns the limb carried out, and leaves the limbs outside the window alone |
| Limbs.TopLimb | include/bigint.hpp:164 | the top limb is non-zero exactly when the value reaches 2^(64 (n - 1)) |
| BigInteger.BigInt.Plus | bigint.cpp:58-62 | operator+ on two operands of the same width returns a fresh zero of that width whatever their values, so every non-zero sum is answered wrongly |

## Left out

- GMP's internal algorithms. `mpn_add`, `mpn_sub` and `mpn_mul` are schoolbook loops written
  against their documented contracts. `mpn_set_str` and `mpn_get_str` are functions.
- Mpn.GetStr: chooses the canonical digits without leading zeros. The GMP manual allows leading
  zeros in `mpn_get_str`'s output, so this is one permitted behaviour, not the only one.
- Mpn.GetStr: does not model GMP clobbering its input limbs. `to_string` passes a copy, and the
  model shows the object's limbs unchanged.
- Mpn.SetStr: asks only that the value fits in the destination. The GMP manual also asks for one
  extra limb of room for the largest number with that many digits; that worst-case requirement is
  not modelled.
- BigInteger.BigInt.FromString: the undefined-behaviour inputs are excluded by a precondition
  (`SetStrDefined`), not modelled as outcomes. These are the empty string, digits at or above the
  base, and values that overflow the limbs.
- BigInteger.BigInt.ToString: calls where the scratch buffer lacks the room `mpn_get_str` asks
  for (every call in base 2, and some in bases 3 to 7) are excluded by the precondition
  `ScratchFits`, not modelled as the buffer overrun they can be.
- BigInteger.BigInt.ToString: for bases 244 to 256 the zero-iff-"0" clause is not stated, because
  it does not hold there (see `WrappedDigitPrintsAsZero`).
- BigInteger.BigInt.Mul: a result narrower than `n1 + n2` limbs is excluded by a precondition,
  not modelled as the out-of-bounds write it is. Operands with zero limbs (`Bits == 0`) are
  excluded too, because `mpn_mul` requires at least one limb in each operand.
- BigInteger.BigInt.FromU64: requires at least one limb; for `Bits == 0` the code writes past an
  empty array.
- The `data()` accessors, which hand out references to the limb array, are not modelled. The
  methods reach the arrays directly, and aliasing through those references is not captured.
- The character classification with `isdigit`/`isupper`/`islower` is taken as ASCII. Locales are
  not modelled.
- `char` is modelled by its 8-bit value 0..255. Whether it is signed on the platform does not
  matter for the characters produced.
- `size_t` and `int` are unbounded integers. Widths and lengths large enough to overflow them are
  not modelled.
- `main` in bigint.cpp writes to the console and is not modelled.
- The benchmark harness is not modelled. It calls members the header does not define.
- The unit tests are not modelled as code. Their expected values appear as `TestVectors`,
  `WordTestVector` and `DecimalTestVector`.
- The throwing of exceptions becomes an `Err` result. The partially filled object that the
  string constructor leaves behind when it throws is not modelled, because no caller can observe
  it.
