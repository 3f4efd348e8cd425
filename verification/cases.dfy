/** Boundary cases of the codec at the edges of the 64-bit ranges, each
    derived from the general lemmas. */
module Cases {
  import opened Ints
  import opened Decimal
  import opened DigitCount
  import opened Format
  import opened Parse
  import opened Wrappers

  lemma Digits10Boundaries()
    ensures Digits10(0) == 1 && Digits10(9) == 1 && Digits10(10) == 2
    ensures Digits10(U64_MAX) == 20
  {
  }

  /** The eighteen digits the extreme values of `int64` share. */
  lemma LeadingDigitsText()
    ensures Canonical(922337203685477580) == "922337203685477580"
  {
    CanonicalAppendDigit(9, 2);
    CanonicalAppendDigit(92, 2);
    CanonicalAppendDigit(922, 3);
    CanonicalAppendDigit(9223, 3);
    CanonicalAppendDigit(92233, 7);
    CanonicalAppendDigit(922337, 2);
    CanonicalAppendDigit(9223372, 0);
    CanonicalAppendDigit(92233720, 3);
    CanonicalAppendDigit(922337203, 6);
    CanonicalAppendDigit(9223372036, 8);
    CanonicalAppendDigit(92233720368, 5);
    CanonicalAppendDigit(922337203685, 4);
    CanonicalAppendDigit(9223372036854, 7);
    CanonicalAppendDigit(92233720368547, 7);
    CanonicalAppendDigit(922337203685477, 5);
    CanonicalAppendDigit(9223372036854775, 8);
    CanonicalAppendDigit(92233720368547758, 0);
  }

  lemma MaximumText()
    ensures Canonical(I64_MAX) == "9223372036854775807"
  {
    LeadingDigitsText();
    CanonicalAppendDigit(922337203685477580, 7);
  }

  /** The magnitude 2^63 of the minimum. */
  lemma MinimumMagnitudeText()
    ensures Canonical(I64_MAX + 1) == "9223372036854775808"
  {
    LeadingDigitsText();
    CanonicalAppendDigit(922337203685477580, 8);
  }

  lemma BelowMinimumMagnitudeText()
    ensures Canonical(I64_MAX + 2) == "9223372036854775809"
  {
    LeadingDigitsText();
    CanonicalAppendDigit(922337203685477580, 9);
  }

  /** `ll2string(LLONG_MIN)` writes the twenty characters
      "-9223372036854775808" when they and a NUL fit. */
  lemma MinimumText()
    ensures SignedCanonical(I64_MIN) == "-9223372036854775808"
  {
    MinimumMagnitudeText();
  }

  /** `ll2string(LLONG_MIN)` into a buffer of 21 bytes or more reports 20
      and writes "-9223372036854775808" and a NUL. */
  method FormatMinimum(dst: seq<char>) returns (len: nat, out: seq<char>)
    requires |dst| >= 21
    ensures |out| == |dst|
    ensures len == 20 && out[..len] == "-9223372036854775808" && out[len] == '\0'
  {
    MinimumText();
    len, out := LlToString(dst, I64_MIN);
  }

  lemma ParseSmallCases()
    ensures ParseInt64("0") == Some(0)
    ensures ParseInt64("-0") == None && ParseInt64("00") == None && ParseInt64("01") == None
    ensures ParseInt64("-") == None && ParseInt64("") == None && ParseInt64("+1") == None
    ensures ParseInt64(" 1") == None && ParseInt64("1 ") == None
  {
  }

  lemma ParseMaximum()
    ensures ParseInt64("9223372036854775807") == Some(I64_MAX)
  {
    MaximumText();
    CanonicalAccepted(I64_MAX);
  }

  lemma ParseMinimum()
    ensures ParseInt64("-9223372036854775808") == Some(I64_MIN)
  {
    var s := "-9223372036854775808";
    MinimumMagnitudeText();
    ValueOfCanonical(I64_MAX + 1);
    assert Unsigned(s) == "9223372036854775808" && StrictSyntax(s);
    assert SignedValue(s) == I64_MIN;
    ParseAcceptsExactly(s);
  }

  /** One past the top of the range is rejected. */
  lemma ParseAboveMaximum()
    ensures ParseInt64("9223372036854775808") == None
  {
    var s := "9223372036854775808";
    MinimumMagnitudeText();
    ValueOfCanonical(I64_MAX + 1);
    assert Unsigned(s) == s && StrictSyntax(s);
    assert SignedValue(s) == I64_MAX + 1;
    ParseAcceptsExactly(s);
  }

  /** One past the bottom of the range is rejected. */
  lemma ParseBelowMinimum()
    ensures ParseInt64("-9223372036854775809") == None
  {
    var s := "-9223372036854775809";
    BelowMinimumMagnitudeText();
    ValueOfCanonical(I64_MAX + 2);
    assert Unsigned(s) == "9223372036854775809" && StrictSyntax(s);
    assert SignedValue(s) == -(I64_MAX + 2);
    ParseAcceptsExactly(s);
  }
}
