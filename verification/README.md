# bigint.c in Dafny

A model of the arbitrary-precision signed integer engine of `bigint.c`. A
`BigInt` is a sequence of base-256 digits, least significant first (the first
`length` cells of the C array), plus a sign of +1 or -1. `Value` reads a
`BigInt` as an integer; `Canonical` is the representation invariant that
`bigint_trim` establishes: no most-significant zero digit (except for the single
digit 0), and zero always carries sign +1.

- `magnitude.dfy` (module `Magnitude`): positional arithmetic on digit
  sequences (`Mag`, `Pow`, `Normal`) and the lemmas the loops need.
- `engine.dfy` (module `Engine`): `bigint_trim`, `cmp_abs`, `add_abs`,
  `sub_abs`, `bigint_from_int`, `bigint_cmp`, `bigint_add`, `bigint_sub`,
  `bigint_mul` and `bigint_div`. The loops are written as the C loops are;
  each result is proved against integer arithmetic. Division is proved against
  C99 truncating division (`TruncDiv`, `TruncRem`).
- `decimal.dfy` (module `Decimal`): `bigint_from_str` and the digit
  generation of `bigint_print`. They are built from the engine's own
  operations, as in C, and proved against the reference meanings `ParseValue`
  and `DecimalString`. These two invert each other on canonical texts.

Error codes: `bigint_div` returns `ErrDiv0` for a zero divisor and `DivOk`
with quotient and remainder otherwise. The other operations cannot fail once
NULL pointers and allocation failure are out of the picture (see below), so
they return their result directly.

## Model

| member | source | states |
|---|---|---|
| `Engine.Trim` | bigint.c:17-22 | the value is unchanged; the result is a prefix of the input, and for an input with at least one digit it is canonical (at least one digit, no most-significant zero unless it is the single digit 0, sign +1 on zero); a nonzero result keeps the input's sign |
| `Engine.CmpAbs` | bigint.c:25-32 | different lengths: the longer one wins whatever the digits; equal lengths: the sign of the difference of the magnitudes; on trimmed magnitudes this is always the sign of abs(a) - abs(b) |
| `Engine.AddDigits` | bigint.c:36-45 | the carry loop yields max(len a, len b) + 1 digits whose value is the sum of the two magnitudes |
| `Engine.AddStep` | bigint.c:39-45 | one column of the carry loop: the digit stored and the new carry keep "digits so far plus carry = low parts of a and b", and the carry stays at most 1 |
| `Engine.AddAbs` | bigint.c:35-48 | a canonical magnitude, sign +1, equal to abs(a) + abs(b) |
| `Engine.SubAbs` | bigint.c:51-64 | given abs(b) <= abs(a), a magnitude with sign +1 equal to abs(a) - abs(b), canonical when a has a digit (so no borrow is outstanding at the end) |
| `Engine.FromInt` | bigint.c:68-80 | a canonical BigInt of the given value, with sign -1 exactly for a negative input and the canonical zero for 0 |
| `Engine.Cmp` | bigint.c:139-143 | on canonical inputs, -1, 0 or 1 as the sign of value(a) - value(b); so it is 0 exactly on equal values and antisymmetric |
| `Engine.Add` | bigint.c:145-160 | on canonical inputs, a canonical result of value value(a) + value(b); equal magnitudes of opposite sign give the canonical zero |
| `Engine.Negate` | bigint.c:165 | the same digits; on a canonical input a canonical result of the negated value, so a zero stays at sign +1 |
| `Engine.Sub` | bigint.c:162-169 | on canonical inputs, a canonical result of value value(a) - value(b) |
| `Engine.DigitProduct` | bigint.c:177 | a product of two digits is at most 255 * 255, the bound on which MulRow's limits on `prod` and the carry rest |
| `Engine.MulCellStep` | bigint.c:176-181 | one cell of the inner loop: storing `prod % RADIX` and carrying `prod / RADIX` adds `a[i] * b[j]` at weight 256^(i+j) to the running value |
| `Engine.MulRow` | bigint.c:174-183 | one row of the schoolbook product adds a[i] * 256^i * abs(b) to the accumulator (each `prod` stays at most 65535 and each carry at most 255); the cell at `i + len b` is still 0 before the final `+= carry`, so the carry fits the cell; the cells above stay 0 |
| `Engine.CarryStore` | bigint.c:182 | storing the last carry into a cell that is still zero keeps the running value |
| `Engine.MulDigits` | bigint.c:173-183 | len a + len b digits whose value is the product of the two magnitudes |
| `Engine.Mul` | bigint.c:171-188 | value(a) * value(b), magnitude the product of the magnitudes, canonical, sign +1 on zero and the product of the signs otherwise |
| `Engine.SignedProduct` | bigint.c:184 | the sign rule "equal signs give +1" turns the product of magnitudes into the product of values |
| `Engine.FitsMonotone` | bigint.c:212-220 | once qd * abs(b) exceeds rem, every larger trial digit does too: the predicate the binary search runs on is monotone |
| `Engine.TrialFits` | bigint.c:215-217 | the trial `mid * b` with its sign forced to +1, compared with `cmp_abs`, answers exactly whether mid * abs(b) <= rem |
| `Engine.QuotientDigit` | bigint.c:211-221 | the binary search over [0, 255] returns the largest digit qd with qd * abs(b) <= rem |
| `Engine.NextDigitFits` | bigint.c:203-221 | with rem < abs(b) before the shift, the shifted remainder is below 256 * abs(b), so the search's top value 255 is enough and the remainder after subtraction is again below abs(b) |
| `Engine.ShiftIn` | bigint.c:204-209 | the shifted remainder is canonical, sign +1, and equals a[i] + 256 * rem |
| `Engine.SubtractMultiple` | bigint.c:223-227 | rem - qd * abs(b) as a canonical magnitude with sign +1 |
| `Engine.LongDivDigit` | bigint.c:203-228 | one step of long division keeps rem < abs(b) and yields the new remainder a[i] + 256 * rem - qd * abs(b) |
| `Engine.LongDivision` | bigint.c:200-228 | over all digits from the top: abs(a) = quot * abs(b) + rem with rem < abs(b); quot has the length of a |
| `Engine.TruncatedParts` | bigint.c:230-234 | the signs set after the loop turn the magnitude division into C99 truncating division of the values |
| `Engine.Div` | bigint.c:190-239 | `ErrDiv0` exactly when b is zero; otherwise canonical q and r with a = q * b + r, abs(r) < abs(b), q = a / b truncated toward zero and r the matching remainder; a nonzero q has sign sign(a) * sign(b), a nonzero r has the sign of a; if abs(a) < abs(b), q is zero and r is a itself |
| `Engine.TruncDivRem` | bigint.c:190-239 | the reference truncating division satisfies x = q * y + r with abs(r) < abs(y) |
| `Engine.CanonicalUnique` | bigint.c:17-22 | two canonical BigInts of equal value are identical, so each result above is the only canonical representation of its value |
| `Engine.CanonicalMag` | bigint.c:17-22 | for a canonical BigInt the magnitude is the absolute value, it is 0 exactly for the zero digit, and the sign is -1 exactly for a negative value |
| `Magnitude.MagCompareAt` | bigint.c:28-30 | at equal lengths, the first differing digit from the top decides which magnitude is smaller |
| `Magnitude.LongerIsLarger` | bigint.c:26-27 | of two trimmed magnitudes, the longer one is larger |
| `Magnitude.NormalUnique` | bigint.c:17-22 | each number has exactly one trimmed digit sequence |
| `Magnitude.MagTruncate` | bigint.c:54-57 | dropping digits above a bound the value stays below loses nothing, which is why `sub_abs` may read b's digits only below `a->length` |
| `Decimal.SkipLeadingZeros` | bigint.c:87 | skips '0' characters only while another character follows, so a lone "0" is kept; the value of the digit run is unchanged |
| `Decimal.DigitRunMaximal` | bigint.c:91-92 | the scan takes the longest prefix made of digits: everything it takes is a digit and the next character, if any, is not |
| `Decimal.AppendDigit` | bigint.c:93-97 | one step `result * 10 + (c - '0')` with the engine's own Mul, FromInt and Add gives a canonical value 10 * result + digit |
| `Decimal.AccumulateDigits` | bigint.c:89-98 | the loop stops at the first non-digit; the result is canonical, non-negative and equals the decimal value of the digits it read |
| `Decimal.FromStr` | bigint.c:82-103 | a canonical BigInt whose value is `ParseValue(s)`: empty text gives 0, an optional '-' or '+' is taken, the digits up to the first non-digit are read, and "-", "-0" or "-abc" give the canonical +0 |
| `Decimal.DivideByTen` | bigint.c:124-126 | one `bigint_div` by ten: a non-negative quotient and a digit 0..9 with value = 10 * q + d |
| `Decimal.CollectDigits` | bigint.c:119-128 | the division loop on the sign-stripped copy produces exactly the decimal digits of the magnitude (none for zero), most significant first |
| `Decimal.ToDecimal` | bigint.c:118-135 | the text written for a canonical BigInt is `DecimalString(value)`: the digits, "0" for zero, and a '-' in front of a negative value |
| `Decimal.ParseDecimalString` | bigint.c:82-135 | parsing what is printed gives back the number |
| `Decimal.DecimalStringOfParse` | bigint.c:82-135 | printing the value of a canonical text (no leading zeros, no "-0") gives back the text |
| `Decimal.DecimalStringCanonical` | bigint.c:118-135 | everything printed is such a canonical text |
| `Decimal.DecimalValueLeadingZero` | bigint.c:87 | a leading '0' does not change the value of a numeral, which is why skipping zeros is harmless |

## Left out

- `main.c`: an interactive scanf/printf front end using a different API that `bigint.h` does not declare.
- `printf` and the fixed 4096-byte buffer of `bigint_print`: only the text it would write is modelled. A non-negative value with more than 4095 decimal digits, or a negative one with more than 4094, would overflow that buffer; the model has no such bound.
- The final reversal loop of `bigint_print`: the model puts each new digit in front of those already collected, which gives the same text without a reversal.
- `bigint_to_str`: declared in `bigint.h` but not defined in `bigint.c`.
- `malloc`, `calloc`, `free`, `bigint_free` and `BIGINT_ERR_MEM`: values are immutable sequences, and allocation is not checked in the C code either.
- NULL arguments and `BIGINT_ERR_NULL`: Dafny values cannot be null, so these checks have no counterpart.
- The optional `remainder` pointer of `bigint_div`: the model always returns the remainder; passing NULL only frees it.
- `bigint_copy`: with immutable values a copy is the value itself.
- Engine.FromInt: takes an unbounded integer. It does not model `long long` width or the undefined negation of `LLONG_MIN`.
- Engine.MulDigits: lengths are unbounded; `a->length + b->length` overflowing `int` is not modelled.
- Decimal.FromStr: models the permissive parser in the code, which stops at the first non-digit and never reports a format error. Texts are Dafny strings, so a NUL inside the text, which ends a C string, has no counterpart. `isdigit` is taken as ASCII '0'..'9'.
- Engine.Add, Engine.Sub, Engine.Cmp and Engine.Div require canonical inputs: the C code's length shortcut in `cmp_abs` is only right on trimmed digits, and every constructor and operation produces canonical values.
- Decimal.ToDecimal requires a canonical input, as do its steps Decimal.CollectDigits and Decimal.DivideByTen: `bigint_print` accepts any BigInt, so a hand-built zero with sign -1, which it would write as "-0", is not modelled; no operation of the engine produces such a value.
