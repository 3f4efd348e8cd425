/** `ull2string` and `ll2string` of deps/redis/util.c: canonical decimal
    text of a 64-bit value written into a caller's bounded buffer, followed
    by a NUL, or 0 when the buffer cannot hold digits and terminator.

    A buffer is a `seq<char>` whose length is `dstlen`; each formatter
    returns the length it reports together with the buffer's new contents. */
module Format {
  import opened Ints
  import opened Decimal
  import opened DigitCount

  /* The 200-character pair table `digits`, in which entries `2*d` and
     `2*d + 1` hold the two decimal digits of `d < 100`. It is kept here as
     its ten rows of twenty characters, one row per tens digit; joined in
     order they are the source's string literal. */
  const Tens0: string := "00010203040506070809"
  const Tens1: string := "10111213141516171819"
  const Tens2: string := "20212223242526272829"
  const Tens3: string := "30313233343536373839"
  const Tens4: string := "40414243444546474849"
  const Tens5: string := "50515253545556575859"
  const Tens6: string := "60616263646566676869"
  const Tens7: string := "70717273747576777879"
  const Tens8: string := "80818283848586878889"
  const Tens9: string := "90919293949596979899"

  function TensRow(t: nat): string
    requires t < 10
  {
    match t
    case 0 => Tens0
    case 1 => Tens1
    case 2 => Tens2
    case 3 => Tens3
    case 4 => Tens4
    case 5 => Tens5
    case 6 => Tens6
    case 7 => Tens7
    case 8 => Tens8
    case _ => Tens9
  }

  /** Character `i` of the pair table, `digits[i]` in the source. */
  function PairDigit(i: nat): char
    requires i < 200
  {
    var row := TensRow(i / 20);
    TensRowLength(i / 20);
    row[i % 20]
  }

  /** Row t lists the pairs t0, t1, ..., t9. */
  predicate PairRow(row: string, t: nat)
    requires t < 10
  {
    && |row| == 20
    && forall u :: 0 <= u < 10 ==> row[2 * u] == DigitChar(t) && row[2 * u + 1] == DigitChar(u)
  }

  /** Every row of the table lists its pairs in order. */
  lemma RowPairs(t: nat)
    requires t < 10
    ensures PairRow(TensRow(t), t)
  {
    var row := TensRow(t);
    forall u | 0 <= u < 10
      ensures row[2 * u] == DigitChar(t) && row[2 * u + 1] == DigitChar(u)
    {
      if u < 5 { if u == 0 {} else if u == 1 {} else if u == 2 {} else if u == 3 {} }
      else { if u == 5 {} else if u == 6 {} else if u == 7 {} else if u == 8 {} }
    }
  }

  lemma TensRowLength(t: nat)
    requires t < 10
    ensures |TensRow(t)| == 20
  {
  }

  lemma TensRowEntry(t: nat, u: nat)
    requires t < 10 && u < 10
    ensures |TensRow(t)| == 20
    ensures TensRow(t)[2 * u] == DigitChar(t) && TensRow(t)[2 * u + 1] == DigitChar(u)
  {
    RowPairs(t);
  }

  /** The table maps `d < 100` to its two decimal digits. */
  lemma PairTable(d: nat)
    requires d < 100
    ensures PairDigit(2 * d) == DigitChar(d / 10) && PairDigit(2 * d + 1) == DigitChar(d % 10)
  {
    var t, u := d / 10, d % 10;
    assert 2 * d / 20 == t && 2 * d % 20 == 2 * u;
    assert (2 * d + 1) / 20 == t && (2 * d + 1) % 20 == 2 * u + 1;
    TensRowEntry(t, u);
  }

  /** What a call writing the decimal text `text` into `dst` does: it fails
      with 0 and leaves the buffer alone unless `text` and its NUL fit;
      otherwise `text` is followed by a NUL and every later byte is kept. */
  ghost predicate WritesText(dst: seq<char>, text: string, len: nat, out: seq<char>) {
    && |out| == |dst|
    && if |text| >= |dst| then
         len == 0 && out == dst
       else
         && len == |text|
         && out[..len] == text
         && out[len] == '\0'
         && out[len + 1..] == dst[len + 1..]
  }

  /** One round of the emission loop: writing the two low digits of `v`
      in front of the suffix already written keeps that suffix the low end
      of the target text, now behind `Canonical(v / 100)`. */
  lemma PairStep(out: seq<char>, next: int, length: int, v: nat, text: string)
    requires v >= 100
    requires next + 1 == |Canonical(v)| && next < length <= |out|
    requires Canonical(v) + out[next + 1..length] == text
    ensures next - 1 == |Canonical(v / 100)| && next >= 2
    ensures var d := v % 100;
      var out' := out[next := DigitChar(d % 10)][next - 1 := DigitChar(d / 10)];
      && Canonical(v / 100) + out'[next - 1..length] == text
      && out'[length..] == out[length..]
  {
    CanonicalPair(v);
    var d := v % 100;
    var out' := out[next := DigitChar(d % 10)][next - 1 := DigitChar(d / 10)];
    assert out'[next - 1..length] == [DigitChar(d / 10), DigitChar(d % 10)] + out[next + 1..length];
    assert out'[length..] == out[length..];
  }

  /** The last one or two digits, once `v < 100`: written at `next` (and
      `next - 1`), they complete the text at the start of the buffer. */
  lemma LastDigits(out: seq<char>, next: int, length: int, v: nat, text: string)
    requires v < 100
    requires next + 1 == |Canonical(v)| && next < length <= |out|
    requires Canonical(v) + out[next + 1..length] == text
    ensures v < 10 ==>
      var out' := out[next := DigitChar(v)];
      next == 0 && out'[..length] == text && out'[length..] == out[length..]
    ensures v >= 10 ==>
      var out' := out[next := DigitChar(v % 10)][next - 1 := DigitChar(v / 10)];
      next == 1 && out'[..length] == text && out'[length..] == out[length..]
  {
    if v < 10 {
      var out' := out[next := DigitChar(v)];
      assert out'[..length] == [DigitChar(v)] + out[1..length];
      assert out'[length..] == out[length..];
    } else {
      var out' := out[next := DigitChar(v % 10)][next - 1 := DigitChar(v / 10)];
      assert Canonical(v) == [DigitChar(v / 10), DigitChar(v % 10)];
      assert out'[..length] == [DigitChar(v / 10), DigitChar(v % 10)] + out[2..length];
      assert out'[length..] == out[length..];
    }
  }

  /** `ull2string`: the length check against `digits10`, the NUL, then the
      digits themselves (see `EmitDigits`). */
  method UllToString(dst: seq<char>, value: u64) returns (len: nat, out: seq<char>)
    ensures WritesText(dst, Canonical(value), len, out)
    ensures len == 0 <==> Digits10(value) >= |dst|
    ensures len != 0 ==> len == Digits10(value)
  {
    var length := Digits10(value);
    Digits10IsLength(value);
    if length >= |dst| {
      return 0, dst;
    }
    out := dst[length := '\0'];
    out := EmitDigits(out, value, length);
    assert out[length + 1..] == out[length..][1..];
    len := length;
  }

  /** The emission loop of `ull2string`: digits are written from the low
      end, two per division by 100 through the pair table, then the last
      one or two remain; `next` is the last position still to fill. */
  method EmitDigits(buf: seq<char>, value: u64, length: nat) returns (out: seq<char>)
    requires length == |Canonical(value)| && length <= |buf|
    ensures |out| == |buf|
    ensures out[..length] == Canonical(value)
    ensures out[length..] == buf[length..]
  {
    out := buf;
    var next: int := length - 1;
    var v: u64 := value;
    CanonicalSplit(value, v, out[next + 1..length]);
    while v >= 100
      invariant v <= value
      invariant |out| == |buf| && next < length
      invariant next + 1 == |Canonical(v)|
      invariant Canonical(v) + out[next + 1..length] == Canonical(value)
      invariant out[length..] == buf[length..]
      invariant v == value / Pow10(length - 1 - next)
      invariant AllDigits(out[next + 1..length])
      invariant ValueOf(out[next + 1..length]) == value % Pow10(length - 1 - next)
    {
      var d := v % 100;
      PairTable(d);
      PairStep(out, next, length, v, Canonical(value));
      var hi, lo := PairDigit(2 * d), PairDigit(2 * d + 1);
      v := v / 100;
      out := out[next := lo];
      out := out[next - 1 := hi];
      next := next - 2;
      CanonicalSplit(value, v, out[next + 1..length]);
    }
    LastDigits(out, next, length, v, Canonical(value));
    if v < 10 {
      out := out[next := DigitChar(v)];
    } else {
      PairTable(v);
      var hi, lo := PairDigit(2 * v), PairDigit(2 * v + 1);
      out := out[next := lo];
      out := out[next - 1 := hi];
    }
  }

  /** The magnitude `ll2string` formats for a negative value: `-svalue`,
      except for the minimum, whose magnitude 2^63 has no `long long` form
      and is built as `LLONG_MAX + 1` in unsigned arithmetic instead. */
  function Magnitude(svalue: i64): (m: u64)
    requires svalue < 0
    ensures m as int == -(svalue as int)
  {
    if svalue != I64_MIN then -svalue else I64_MAX + 1
  }

  /** Writing a text into the buffer after a leading '-' writes the text
      with the sign in front into the whole buffer, one byte longer. */
  lemma BehindSign(buf: seq<char>, text: string, len: nat, rest: seq<char>)
    requires |buf| >= 1 && buf[0] == '-' && |text| >= 1
    requires WritesText(buf[1..], text, len, rest)
    ensures WritesText(buf, "-" + text, if len == 0 then 0 else len + 1, buf[..1] + rest)
  {
    var out := buf[..1] + rest;
    if len == 0 {
      assert buf[..1] + buf[1..] == buf;
    } else {
      assert out[..len + 1] == "-" + text;
      assert out[len + 2..] == rest[len + 1..];
      assert buf[len + 2..] == buf[1..][len + 1..];
    }
  }

  /** `ll2string`: the sign is written first and the magnitude formatted into
      the rest of the buffer. A negative value whose digits then do not fit
      fails with the '-' left behind in `dst[0]`. */
  method LlToString(dst: seq<char>, svalue: i64) returns (len: nat, out: seq<char>)
    ensures svalue >= 0 ==> WritesText(dst, Canonical(svalue), len, out)
    ensures svalue < 0 && |dst| < 2 ==> WritesText(dst, SignedCanonical(svalue), len, out)
    ensures svalue < 0 && |dst| >= 2 ==> WritesText(dst[0 := '-'], SignedCanonical(svalue), len, out)
    ensures len == 0 <==> |SignedCanonical(svalue)| >= |dst|
  {
    if svalue < 0 {
      var value := Magnitude(svalue);
      if |dst| < 2 {
        return 0, dst;
      }
      out := dst[0 := '-'];
      var digits, rest := UllToString(out[1..], value);
      BehindSign(out, Canonical(value), digits, rest);
      out := out[..1] + rest;
      if digits == 0 {
        return 0, out;
      }
      len := digits + 1;
    } else {
      len, out := UllToString(dst, svalue);
    }
  }
}
