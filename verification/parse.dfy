/** `lpStringToInt64` of deps/redis/util.c: a strict parser of decimal text
    into a signed 64-bit integer. It accepts exactly "0" and
    `-?[1-9][0-9]*` over all of its input, with overflow checked at every
    digit and a final `int64` range check. */
module Parse {
  import opened Ints
  import opened Decimal
  import opened Wrappers

  /** `LONG_STR_SIZE` from util.h (that header is not part of this model):
      room for the text of any `long`, sign and 19 digits and a NUL. */
  const LONG_STR_SIZE: nat := 21

  /** The text the parser is meant to accept, before any range check: "0",
      or an optional '-' and a digit string whose first digit is 1-9. */
  predicate StrictSyntax(s: string) {
    || s == "0"
    || (|Unsigned(s)| >= 1 && AllDigits(Unsigned(s)) && Unsigned(s)[0] != '0')
  }

  /** The digits after an optional leading '-'. */
  function Unsigned(s: string): string {
    if |s| >= 1 && s[0] == '-' then s[1..] else s
  }

  /** The number a strictly formed text denotes. */
  function SignedValue(s: string): int
    requires StrictSyntax(s)
  {
    if s[0] == '-' then -(ValueOf(Unsigned(s)) as int) else ValueOf(Unsigned(s))
  }

  /** The digit loop of `lpStringToInt64`: `v` is the magnitude read so far
      and `i` the next byte. It stops with failure at a non-digit (a byte the
      loop leaves unconsumed) and before any step that would take `v` past
      `UINT64_MAX`. */
  function Accumulate(s: string, i: nat, v: u64): Option<u64>
    requires i <= |s|
    decreases |s| - i
  {
    if i == |s| then Some(v)
    else if !IsDigit(s[i]) then None
    else if v > U64_MAX / 10 then None
    else
      var v10 := v * 10;
      if v10 > U64_MAX - DigitValue(s[i]) then None
      else Accumulate(s, i + 1, v10 + DigitValue(s[i]))
  }

  /** `lpStringToInt64`: `None` where the source returns 0. */
  function ParseInt64(s: string): Option<i64> {
    if |s| == 0 || |s| >= LONG_STR_SIZE then None
    else if |s| == 1 && s[0] == '0' then Some(0)
    else
      var negative := s[0] == '-';
      var start := if negative then 1 else 0;
      if start == |s| then None
      else if !('1' <= s[start] <= '9') then None
      else
        match Accumulate(s, start + 1, DigitValue(s[start]))
        case None => None
        case Some(v) =>
          // The source negates in uint64_t and converts to int64_t, which
          // for v == 2^63 gives INT64_MIN on two's-complement targets.
          if negative then
            if v > I64_MAX + 1 then None else Some(-(v as int))
          else
            if v > I64_MAX then None else Some(v)
  }

  /** The two per-digit guards of the loop reject exactly the steps whose
      result would exceed `UINT64_MAX`, so the loop succeeds precisely on
      digit strings whose value fits in 64 unsigned bits, and yields that
      value. */
  lemma {:induction false} AccumulateExact(s: string, lo: nat, i: nat, v: u64)
    requires lo <= i <= |s|
    requires AllDigits(s[lo..i]) && v == ValueOf(s[lo..i])
    ensures Accumulate(s, i, v).Some? <==> AllDigits(s[lo..]) && ValueOf(s[lo..]) <= U64_MAX
    ensures Accumulate(s, i, v).Some? ==> Accumulate(s, i, v).value == ValueOf(s[lo..])
    decreases |s| - i
  {
    if i == |s| {
      assert s[lo..i] == s[lo..];
    } else if !IsDigit(s[i]) {
      assert s[lo..][i - lo] == s[i];
    } else {
      var d := DigitValue(s[i]);
      ValueOfExtend(s, lo, i);
      if AllDigits(s[lo..]) {
        assert s[lo..][..i + 1 - lo] == s[lo..i + 1];
        ValueOfPrefix(s[lo..], i + 1 - lo);
      }
      GuardsExact(v, d);
      if v * 10 + d <= U64_MAX {
        AccumulateExact(s, lo, i + 1, v * 10 + d);
      }
    }
  }

  /** Reading one more digit of a slice. */
  lemma ValueOfExtend(s: string, lo: nat, i: nat)
    requires lo <= i < |s| && AllDigits(s[lo..i]) && IsDigit(s[i])
    ensures AllDigits(s[lo..i + 1])
    ensures ValueOf(s[lo..i + 1]) == ValueOf(s[lo..i]) * 10 + DigitValue(s[i])
  {
    assert s[lo..i + 1][..i - lo] == s[lo..i];
  }

  /** The two overflow guards of the digit loop together admit a step
      exactly when its result stays within `UINT64_MAX`. */
  lemma GuardsExact(v: nat, d: nat)
    requires d < 10
    ensures (v <= U64_MAX / 10 && v * 10 <= U64_MAX - d) <==> v * 10 + d <= U64_MAX
  {
  }

  /** A strictly formed text denoting an `int64` is at most 20 bytes long, so
      the `LONG_STR_SIZE` pre-check never turns such a text away. */
  lemma {:induction false} InRangeIsShort(s: string)
    requires StrictSyntax(s) && I64_MIN <= SignedValue(s) <= I64_MAX
    ensures |s| < LONG_STR_SIZE
  {
    var u := Unsigned(s);
    if s != "0" {
      assert |s| <= |u| + 1;
      assert ValueOf(u) <= I64_MAX + 1;
      ValueOfLeadingDigit(u);
      if |u| > 19 {
        Pow10Monotone(19, |u| - 1);
        Pow10Of19();
        assert false;
      }
    }
  }

  /** The parser accepts exactly the strictly formed texts whose value lies
      in [-2^63, 2^63 - 1], and returns that value. */
  lemma ParseAcceptsExactly(s: string)
    ensures ParseInt64(s) ==
      if StrictSyntax(s) && I64_MIN <= SignedValue(s) <= I64_MAX then Some(SignedValue(s)) else None
  {
    if |s| >= LONG_STR_SIZE {
      if StrictSyntax(s) && I64_MIN <= SignedValue(s) <= I64_MAX {
        InRangeIsShort(s);
      }
    } else if |s| >= 1 && !(|s| == 1 && s[0] == '0') {
      var start := if s[0] == '-' then 1 else 0;
      assert Unsigned(s) == s[start..];
      if start < |s| && '1' <= s[start] <= '9' {
        assert ValueOf(s[start..start + 1]) == DigitValue(s[start]);
        AccumulateExact(s, start, start + 1, DigitValue(s[start]));
      }
    }
  }

  /** Every `int64` has its canonical text accepted, with its own value. */
  lemma CanonicalAccepted(x: i64)
    ensures ParseInt64(SignedCanonical(x)) == Some(x)
  {
    var s := SignedCanonical(x);
    var m: nat := if x < 0 then -(x as int) else x;
    assert Unsigned(s) == Canonical(m);
    ValueOfCanonical(m);
    ParseAcceptsExactly(s);
  }

  /** Whatever the parser accepts is the canonical text of the value it
      returns. */
  lemma AcceptedIsCanonical(s: string)
    requires ParseInt64(s).Some?
    ensures s == SignedCanonical(ParseInt64(s).value)
  {
    ParseAcceptsExactly(s);
    var x := ParseInt64(s).value;
    assert StrictSyntax(s) && x == SignedValue(s);
    if s != "0" {
      var u := Unsigned(s);
      assert IsCanonical(u);
      CanonicalOfValue(u);
      ValueOfLeadingDigit(u);
      if s[0] == '-' {
        assert x == -(ValueOf(u) as int) && x < 0;
        assert SignedCanonical(x) == "-" + u;
        assert s == "-" + u;
      } else {
        assert u == s && x == ValueOf(u);
      }
    }
  }

  /** The parser accepts a text exactly when it is the canonical decimal
      text of the value returned: no other spelling of a number gets
      through, which is what makes the parse lossless. */
  lemma ParseIsCanonical(s: string, x: i64)
    ensures ParseInt64(s) == Some(x) <==> s == SignedCanonical(x)
  {
    if s == SignedCanonical(x) {
      CanonicalAccepted(x);
    }
    if ParseInt64(s) == Some(x) {
      AcceptedIsCanonical(s);
    }
  }
}
