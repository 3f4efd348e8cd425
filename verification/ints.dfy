/** The fixed-width integer ranges the C code works in: `uint64_t` /
    `unsigned long long` and `int64_t` / `long long`. Dafny integers are
    unbounded, so every range is a subset type and every wrap-around in the
    code is written out where it occurs, except the parser's final negation
    (see `Parse.ParseInt64`). */
module Ints {

  const U64_MAX: int := 0xFFFF_FFFF_FFFF_FFFF
  const I64_MAX: int := 0x7FFF_FFFF_FFFF_FFFF
  const I64_MIN: int := -0x8000_0000_0000_0000

  type u64 = x: int | 0 <= x <= U64_MAX
  type i64 = x: int | I64_MIN <= x <= I64_MAX
}
