/** The reference meaning of decimal text: digit characters, the canonical
    decimal string of a natural number, and the value of a digit string.
    Both the formatters and the parser are specified against these. */
module Decimal {

  predicate IsDigit(c: char) {
    '0' <= c <= '9'
  }

  predicate AllDigits(s: string) {
    forall i :: 0 <= i < |s| ==> IsDigit(s[i])
  }

  /** The value of a digit character, `c - '0'` in C. */
  function DigitValue(c: char): (d: nat)
    requires IsDigit(c)
    ensures d < 10
  {
    (c as int) - ('0' as int)
  }

  /** The digit character of a value below ten, `'0' + d` in C. */
  function DigitChar(d: nat): (c: char)
    requires d < 10
    ensures IsDigit(c) && DigitValue(c) == d
  {
    (('0' as int) + d) as char
  }

  lemma DigitCharOfValue(c: char)
    requires IsDigit(c)
    ensures DigitChar(DigitValue(c)) == c
  {
  }

  function Pow10(k: nat): (p: nat)
    ensures p >= 1
  {
    if k == 0 then 1 else 10 * Pow10(k - 1)
  }

  lemma {:induction false} Pow10Add(a: nat, b: nat)
    ensures Pow10(a + b) == Pow10(a) * Pow10(b)
  {
    if b > 0 {
      Pow10Add(a, b - 1);
      assert Pow10(a + b) == 10 * Pow10(a + b - 1);
    }
  }

  lemma {:induction false} Pow10Monotone(a: nat, b: nat)
    requires a <= b
    ensures Pow10(a) <= Pow10(b)
  {
    if a < b {
      Pow10Monotone(a, b - 1);
    }
  }

  /** The powers of ten up to 10^12 that the digit-count cascade compares with. */
  lemma Pow10UpTo12()
    ensures Pow10(1) == 10 && Pow10(2) == 100 && Pow10(3) == 1000 && Pow10(4) == 10000
    ensures Pow10(5) == 100000 && Pow10(6) == 1000000 && Pow10(7) == 10000000
    ensures Pow10(8) == 100000000 && Pow10(9) == 1000000000 && Pow10(10) == 10000000000
    ensures Pow10(11) == 100000000000 && Pow10(12) == 1000000000000
  {
  }

  /** 10^19, the first power of ten above `2^63`. */
  lemma Pow10Of19()
    ensures Pow10(19) == 10_000_000_000_000_000_000
  {
    Pow10Add(9, 10);
  }

  /** The canonical decimal string of `n`: the shortest digit string with
      value `n`, which is "0" for zero and otherwise starts with 1-9. */
  function Canonical(n: nat): (s: string)
    ensures |s| >= 1 && AllDigits(s)
    ensures s[0] == '0' <==> n == 0
  {
    if n < 10 then [DigitChar(n)] else Canonical(n / 10) + [DigitChar(n % 10)]
  }

  /** A digit string is canonical when it is "0" or does not start with '0'. */
  predicate IsCanonical(s: string) {
    |s| >= 1 && AllDigits(s) && (s[0] == '0' ==> |s| == 1)
  }

  /** The value of a digit string, most significant digit first. */
  function ValueOf(s: string): (n: nat)
    requires AllDigits(s)
    ensures n < Pow10(|s|)
  {
    if |s| == 0 then 0 else ValueOf(s[..|s| - 1]) * 10 + DigitValue(s[|s| - 1])
  }

  /** The value of a concatenation: the front digits are worth
      `10^|b|` times as much. */
  lemma {:induction false} ValueOfAppend(a: string, b: string)
    requires AllDigits(a) && AllDigits(b)
    ensures AllDigits(a + b)
    ensures ValueOf(a + b) == ValueOf(a) * Pow10(|b|) + ValueOf(b)
  {
    if |b| == 0 {
      assert a + b == a;
    } else {
      var b' := b[..|b| - 1];
      var d := DigitValue(b[|b| - 1]);
      assert (a + b)[..|a + b| - 1] == a + b';
      assert (a + b)[|a + b| - 1] == b[|b| - 1];
      ValueOfAppend(a, b');
      assert ValueOf(a + b) == ValueOf(a + b') * 10 + d;
      assert ValueOf(b) == ValueOf(b') * 10 + d;
      ShiftDecimal(ValueOf(a), Pow10(|b'|), ValueOf(b'), d);
    }
  }

  /** The arithmetic of appending one digit to `a * p + r`. */
  lemma ShiftDecimal(a: nat, p: nat, r: nat, d: nat)
    ensures (a * p + r) * 10 + d == a * (10 * p) + (r * 10 + d)
  {
  }

  /** When the canonical text of `n` is the text of `high` followed by
      `low`, then `high` is `n / 10^|low|` and `low` spells `n % 10^|low|`:
      the back of the text holds the low-order digits. */
  lemma CanonicalSplit(n: nat, high: nat, low: string)
    requires Canonical(high) + low == Canonical(n)
    ensures AllDigits(low)
    ensures high == n / Pow10(|low|)
    ensures ValueOf(low) == n % Pow10(|low|)
  {
    SuffixDigits(Canonical(high), low);
    ValueOfAppend(Canonical(high), low);
    ValueOfCanonical(high);
    ValueOfCanonical(n);
    var p, r := Pow10(|low|), ValueOf(low);
    assert n == high * p + r;
    DivideExactly(n, p, high, r);
  }

  /** The back part of a digit string is a digit string. */
  lemma SuffixDigits(front: string, back: string)
    requires AllDigits(front + back)
    ensures AllDigits(back)
  {
    forall i | 0 <= i < |back|
      ensures IsDigit(back[i])
    {
      assert back[i] == (front + back)[|front| + i];
    }
  }

  /** Euclidean division is determined by quotient and remainder. */
  lemma DivideExactly(n: nat, p: nat, q: nat, r: nat)
    requires p >= 1 && n == q * p + r && r < p
    ensures n / p == q && n % p == r
  {
    var q', r' := n / p, n % p;
    assert n == q' * p + r';
    if q' < q {
      MultiplyMonotone(q' + 1, q, p);
    } else if q' > q {
      MultiplyMonotone(q + 1, q', p);
    }
  }

  /** Multiplication by a natural number preserves order. */
  lemma MultiplyMonotone(a: nat, b: nat, p: nat)
    requires a <= b
    ensures a * p <= b * p
    ensures (a + 1) * p == a * p + p
  {
  }

  /** Prefixes of a digit string never have a larger value than the whole. */
  lemma {:induction false} ValueOfPrefix(s: string, j: nat)
    requires AllDigits(s) && j <= |s|
    ensures ValueOf(s[..j]) <= ValueOf(s)
    decreases |s| - j
  {
    if j < |s| {
      ValueOfPrefix(s, j + 1);
      assert s[..j + 1][..j] == s[..j];
    } else {
      assert s[..j] == s;
    }
  }

  /** A digit string of length k whose first digit is not 0 has a value of
      at least 10^(k-1). */
  lemma {:induction false} ValueOfLeadingDigit(s: string)
    requires AllDigits(s) && |s| >= 1 && s[0] != '0'
    ensures Pow10(|s| - 1) <= ValueOf(s)
  {
    if |s| > 1 {
      var p := s[..|s| - 1];
      assert p[0] == s[0];
      ValueOfLeadingDigit(p);
    }
  }

  /** Reading back the canonical string gives the number. */
  lemma {:induction false} ValueOfCanonical(n: nat)
    ensures ValueOf(Canonical(n)) == n
  {
    if n >= 10 {
      var s := Canonical(n);
      assert s[..|s| - 1] == Canonical(n / 10);
      ValueOfCanonical(n / 10);
    }
  }

  /** Every canonical digit string is the canonical string of its value. */
  lemma {:induction false} CanonicalOfValue(s: string)
    requires IsCanonical(s)
    ensures Canonical(ValueOf(s)) == s
  {
    if |s| == 1 {
      DigitCharOfValue(s[0]);
    } else {
      var p := s[..|s| - 1];
      assert p[0] == s[0];
      ValueOfLeadingDigit(p);
      CanonicalOfValue(p);
      var n := ValueOf(s);
      assert n / 10 == ValueOf(p) && n % 10 == DigitValue(s[|s| - 1]);
      DigitCharOfValue(s[|s| - 1]);
      assert s == p + [s[|s| - 1]];
    }
  }

  /** The canonical string has exactly k characters when the number has k
      digits: `10^(k-1) <= n < 10^k`, the lower bound dropped for k = 1. */
  lemma {:induction false} CanonicalLength(n: nat, k: nat)
    requires 1 <= k
    requires k == 1 || Pow10(k - 1) <= n
    requires n < Pow10(k)
    ensures |Canonical(n)| == k
  {
    if k > 1 {
      assert Pow10(k) == 10 * Pow10(k - 1);
      if k > 2 {
        assert Pow10(k - 1) == 10 * Pow10(k - 2);
      }
      CanonicalLength(n / 10, k - 1);
    }
  }

  /** Appending a digit to a nonzero number's text appends it to the value. */
  lemma CanonicalAppendDigit(n: nat, d: nat)
    requires n >= 1 && d < 10
    ensures Canonical(10 * n + d) == Canonical(n) + [DigitChar(d)]
  {
    assert (10 * n + d) / 10 == n && (10 * n + d) % 10 == d;
  }

  /** Two digits are appended per division by 100: the step the two-at-a-time
      emission of the formatter relies on. */
  lemma CanonicalPair(n: nat)
    requires n >= 100
    ensures Canonical(n) == Canonical(n / 100) + [DigitChar(n % 100 / 10), DigitChar(n % 100 % 10)]
  {
    var q, r := n / 100, n % 100;
    assert n / 10 == 10 * q + r / 10;
    assert n / 10 / 10 == q && n / 10 % 10 == r / 10;
  }

  /** The canonical signed decimal string: '-' before the magnitude. */
  function SignedCanonical(x: int): (s: string)
    ensures |s| >= 1
  {
    if x < 0 then "-" + Canonical(-x) else Canonical(x)
  }
}
