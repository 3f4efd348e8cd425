/** `digits10` of deps/redis/util.c: the number of decimal digits of a
    64-bit unsigned value, by a cascade of range comparisons with a single
    recursion on `v / 10^12` for values of thirteen digits or more. */
module DigitCount {
  import opened Ints
  import opened Decimal

  /** Digit count of `v`, characterised by `10^(r-1) <= v < 10^r` (the lower
      bound dropped for the one-digit values, zero among them). */
  function Digits10(v: u64): (r: nat)
    ensures 1 <= r <= 20
    ensures v < Pow10(r)
    ensures r == 1 || Pow10(r - 1) <= v
  {
    Pow10UpTo12();
    if v < 10 then 1
    else if v < 100 then 2
    else if v < 1000 then 3
    else if v < 1000000000000 then
      if v < 100000000 then
        if v < 1000000 then
          if v < 10000 then 4 else 5 + (if v >= 100000 then 1 else 0)
        else
          7 + (if v >= 10000000 then 1 else 0)
      else if v < 10000000000 then
        9 + (if v >= 1000000000 then 1 else 0)
      else
        11 + (if v >= 100000000000 then 1 else 0)
    else
      var q := v / 1000000000000;
      var r := Digits10(q);
      RecursionStep(v, q, r);
      12 + r
  }

  /** The single recursive step: if `q = v / 10^12` has r digits then `v`
      has 12 + r, and r is at most 8 (so `q < 10^12` and the inner call
      resolves in the cascade without recursing again). */
  lemma RecursionStep(v: u64, q: nat, r: nat)
    requires v >= 1000000000000 && q == v / 1000000000000
    requires 1 <= r && q < Pow10(r) && (r == 1 || Pow10(r - 1) <= q)
    ensures r <= 8 && q < 1000000000000
    ensures v < Pow10(12 + r) && Pow10(12 + r - 1) <= v
  {
    Pow10UpTo12();
    Pow10Add(12, r);
    if r > 8 {
      Pow10Monotone(8, r - 1);
      assert false;
    }
    assert v < 1000000000000 * (q + 1);
    if r > 1 {
      Pow10Add(12, r - 1);
      assert 1000000000000 * Pow10(r - 1) <= 1000000000000 * q;
    }
  }

  /** The digit count is the length of the canonical decimal string. */
  lemma Digits10IsLength(v: u64)
    ensures Digits10(v) == |Canonical(v)|
  {
    CanonicalLength(v, Digits10(v));
  }

  /** One digit exactly for the values below ten. */
  lemma Digits10One(v: u64)
    ensures Digits10(v) == 1 <==> v < 10
  {
  }
}
