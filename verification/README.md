# Decimal integer codec of `deps/redis/util.c`

A Dafny model of the numeric text codec in `deps/redis/util.c`. It has four pure,
allocation-free C functions:

- `digits10` counts the decimal digits of a `uint64_t`. It uses a cascade of range
  comparisons and recurses at most once, on `v / 10^12`.
- `ull2string` writes the canonical decimal text of an `unsigned long long` into a
  bounded buffer, followed by a NUL. It emits two digits at a time through a
  200-character pair table. It returns 0 when the digits and the NUL do not fit.
- `ll2string` is the signed wrapper. It writes `'-'` and then formats the magnitude.
  For `LLONG_MIN` it uses `LLONG_MAX + 1` as the magnitude, which avoids signed
  overflow.
- `lpStringToInt64` is the strict parser of `"0" | "-"?[1-9][0-9]*`. It checks
  overflow at every digit and ends with an `int64` range check.

Layout, one module per component:

- `ints.dfy` (`Ints`): the `u64` and `i64` ranges as subset types of `int`.
- `decimal.dfy` (`Decimal`): the reference meaning of decimal text. `Canonical(n)` is
  the canonical digit string of a natural number, and `ValueOf(s)` is the value of a
  digit string. It also proves that these two are inverse on canonical strings.
- `digit_count.dfy` (`DigitCount`): `digits10`.
- `format.dfy` (`Format`): the pair table, `ull2string` and `ll2string`. A
  buffer is a `seq<char>` whose length is `dstlen`. A formatter returns the length
  it reports and the buffer's new contents. The reference predicate `WritesText`
  says what a write does: it fails with 0 and leaves the buffer alone, or it writes
  the text, then a NUL, and keeps every later byte.
- `parse.dfy` (`Parse`): `lpStringToInt64` as `ParseInt64`, which returns
  `Option<i64>`. The reference grammar is `StrictSyntax` and the denoted number is
  `SignedValue`.
- `cases.dfy` (`Cases`): the boundary values at both ends of the 64-bit ranges.
- `wrappers.dfy` (`Wrappers`): `Option`.

The headline results:

- `Digits10(v) == |Canonical(v)|`.
- `ull2string` and `ll2string` write exactly `Canonical(v)` and
  `SignedCanonical(v)`, and fail exactly when the text plus its NUL does not fit.
- `ParseInt64(s) == Some(x)` holds exactly when `s == SignedCanonical(x)`. So the
  parser accepts the canonical text of every `int64` and nothing else. In
  particular, parsing the text `ll2string` writes gives back the value.

## Model

| member | source | states |
|---|---|---|
| `DigitCount.Digits10` | deps/redis/util.c:10-28 | the count r is in 1..20 and satisfies `10^(r-1) <= v < 10^r` (no lower bound when r = 1), so it is the number of decimal digits of v |
| `DigitCount.RecursionStep` | deps/redis/util.c:27 | if `v >= 10^12` and `v / 10^12` has r digits, then v has 12 + r digits and r <= 8; so `v / 10^12 < 10^12` and the inner call never recurses again |
| `DigitCount.Digits10IsLength` | deps/redis/util.c:8-28 | the digit count equals the length of the canonical decimal string of v |
| `DigitCount.Digits10One` | deps/redis/util.c:11 | the count is 1 exactly when v < 10 |
| `Decimal.DigitChar` | deps/redis/util.c:63 | `'0' + d` is a digit character whose value is d |
| `Decimal.CanonicalLength` | deps/redis/util.c:8-28 | the canonical string has k characters whenever `10^(k-1) <= n < 10^k` |
| `Decimal.CanonicalPair` | deps/redis/util.c:53-59 | for n >= 100, the canonical text of n is the text of n / 100 followed by the two digits of n % 100 |
| `Decimal.CanonicalSplit` | deps/redis/util.c:52-58 | when the text of n is the text of `high` followed by digits `low`, with k the length of `low`, `high == n / 10^k` and `low` spells `n % 10^k`; in the emission loop this makes the remaining value the original divided by 100 per round, and the written bytes its low-order digits |
| `Decimal.ValueOfCanonical` | deps/redis/util.c:131-133 | reading back the canonical text of n gives n |
| `Decimal.CanonicalOfValue` | deps/redis/util.c:126-129 | a digit string that is "0" or has no leading zero is the canonical text of its own value |
| `Format.PairTable` | deps/redis/util.c:39-44 | table entries 2d and 2d+1 are the tens and units digits of d, for every d < 100 |
| `Format.PairStep` | deps/redis/util.c:53-59 | one loop round keeps the invariant: the written bytes are the low-order digits of the original value, behind the canonical text of `value / 100`; and `next >= 2`, so `next - 1` does not underflow |
| `Format.LastDigits` | deps/redis/util.c:61-68 | once `value < 100`, `next` is 0 (one digit left) or 1 (two left), and the final write completes the text at the start of the buffer |
| `Format.EmitDigits` | deps/redis/util.c:50-68 | the emission loop fills `dst[0..length)` with the canonical digits of the value and leaves every byte from `length` on unchanged |
| `Format.UllToString` | deps/redis/util.c:38-71 | fails with 0 and writes nothing exactly when `digits10(value) >= dstlen`; otherwise returns `digits10(value)`, writes the canonical digits and then a NUL, and keeps the bytes after the NUL |
| `Format.Magnitude` | deps/redis/util.c:82-87 | the magnitude of a negative value, `LLONG_MAX + 1` for `LLONG_MIN`, is its exact absolute value, which fits in 64 unsigned bits |
| `Format.BehindSign` | deps/redis/util.c:88-101 | formatting into the buffer after a leading '-' is formatting the signed text into the whole buffer: the reported length is one more, or still 0 on failure |
| `Format.LlToString` | deps/redis/util.c:76-101 | a non-negative value is formatted exactly as `ull2string` formats it; any value succeeds exactly when its signed canonical text plus a NUL fits, and then that text is written; for a negative value with `dstlen < 2` nothing is written; with `dstlen >= 2` and digits that then do not fit, only the '-' is left in `dst[0]` |
| `Parse.AccumulateExact` | deps/redis/util.c:178-188 | the digit loop succeeds exactly when the rest of the input is all digits and the total value fits in `uint64`, and it then returns that value |
| `Parse.GuardsExact` | deps/redis/util.c:179-185 | the two overflow guards together admit a step exactly when `v * 10 + digit <= UINT64_MAX` |
| `Parse.InRangeIsShort` | deps/redis/util.c:151-153 | a well-formed text whose value is an `int64` is shorter than `LONG_STR_SIZE`, so the length pre-check rejects no valid input |
| `Parse.ParseAcceptsExactly` | deps/redis/util.c:145-204 | the parser returns `Some(value)` exactly for texts of the form "0" or `-?[1-9][0-9]*` whose value lies in [-2^63, 2^63-1], and returns `None` for everything else: empty input, a bare '-', leading zeros, "-0", other bytes, overflow |
| `Parse.CanonicalAccepted` | deps/redis/util.c:131-133 | the canonical text of every `int64` parses back to that value |
| `Parse.AcceptedIsCanonical` | deps/redis/util.c:126-133 | every accepted text is the canonical text of the value returned |
| `Parse.ParseIsCanonical` | deps/redis/util.c:126-133 | the parser returns x exactly on the canonical text of x, so the parse is lossless both ways |
| `Cases.Digits10Boundaries` | deps/redis/util.c:10-28 | `digits10` gives 1 for 0 and 9, 2 for 10, and 20 for `UINT64_MAX` |
| `Cases.MinimumText` | deps/redis/util.c:83-87 | the signed text of `LLONG_MIN` is the 20 characters "-9223372036854775808" |
| `Cases.FormatMinimum` | deps/redis/util.c:76-101 | `ll2string(LLONG_MIN)` into a buffer of at least 21 bytes returns 20 and writes "-9223372036854775808" and a NUL |
| `Cases.ParseSmallCases` | deps/redis/util.c:151-176 | "0" parses to 0; "-0", "00", "01", "-", "", "+1", " 1" and "1 " are rejected |
| `Cases.ParseMaximum` | deps/redis/util.c:198-201 | "9223372036854775807" parses to `INT64_MAX` |
| `Cases.ParseMinimum` | deps/redis/util.c:194-197 | "-9223372036854775808" parses to `INT64_MIN` |
| `Cases.ParseAboveMaximum` | deps/redis/util.c:199-200 | "9223372036854775808" is rejected |
| `Cases.ParseBelowMinimum` | deps/redis/util.c:195-196 | "-9223372036854775809" is rejected |

## Left out

- `getEnvVar` (deps/redis/util.c:104-119) is left out. It reads the process
  environment through `getenv` and calls `strtoul` and `errno`, and none of these are
  modelled.
- `src/cli/rdb-cli.c` is left out. It is command-line glue over a library whose code
  is not part of this model.
- `LONG_STR_SIZE` is defined in `util.h`, which is not part of this model. It is the
  named constant `Parse.LONG_STR_SIZE` with the value 21: a sign, 19 digits and a
  NUL. With that value the length pre-check never changes the result
  (`Parse.InRangeIsShort`).
- The `value == NULL` option of `lpStringToInt64` is left out. The parser returns an
  `Option<i64>` instead of writing through a pointer.
- The buffer is modelled as a sequence whose length is `dstlen`. A C caller could pass
  a `dstlen` that differs from the real buffer size; the model does not cover this.
- The `int` and `size_t` widths of the lengths returned are not modelled. They are at
  most 21, so they cannot overflow.
- When `ll2string` fails on a negative value with `dstlen >= 2`, the model keeps the
  `'-'` left in `dst[0]`, as the code does. With `dstlen < 2`, nothing is written. No
  caller should read the buffer after a failure.
- `Parse.ParseInt64` negates the accumulated magnitude in unbounded integers. The
  source negates in `uint64_t` and converts to `int64_t`. The two agree on every
  accepted magnitude, including 2^63 on two's-complement targets.
- The pair table is kept as its ten 20-character rows and read by index. The
  performance reason for emitting two digits at a time is not modelled.
- Buffers and inputs are Dafny strings, which are sequences of Unicode scalar values,
  while the C code reads and writes bytes. The two agree on every byte string: only
  '0' to '9' count as digits, only '-' counts as a sign, and every other character is
  rejected or copied unchanged.
