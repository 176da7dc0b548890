/**
 * Positional digit strings: what `std::hex` inserted into a stream and
 * `std::to_string` produce for a non-negative integer, as the digit values
 * most significant first, without leading zeros.
 */
module Numerals {

  /** The bases the streams print in: decimal (`std::dec`) and hexadecimal (`std::hex`). */
  type Base = b: nat | b == 10 || b == 16 witness 10

  /** Euclidean division by the base, and its uniqueness. */
  lemma DivMod(n: nat, q: nat, r: nat, base: Base)
    ensures n / base * base + n % base == n && n % base < base
    ensures n >= base ==> 1 <= n / base < n
    ensures r < base && n == q * base + r ==> n / base == q && n % base == r
  {
    if base == 10 {
      assert q * base == q * 10;
    } else {
      assert q * base == q * 16;
    }
  }

  /** The digits of `n` in base `base`, most significant first; `0` is the single digit `0`. */
  function Digits(n: nat, base: Base): seq<nat>
    decreases n
  {
    if n < base then [n] else DivMod(n, 0, 0, base); Digits(n / base, base) + [n % base]
  }

  /** The number a digit sequence denotes (the reference reading of `Digits`). */
  function Value(ds: seq<nat>, base: Base): nat
  {
    if ds == [] then 0 else Value(ds[..|ds| - 1], base) * base + ds[|ds| - 1]
  }

  /** Every digit is below the base. */
  predicate DigitsBelow(ds: seq<nat>, base: Base)
  {
    forall i :: 0 <= i < |ds| ==> ds[i] < base
  }

  /** At least one digit, and no leading zero unless the number is zero. */
  predicate Canonical(ds: seq<nat>)
  {
    |ds| >= 1 && (|ds| > 1 ==> ds[0] != 0)
  }

  /** `Digits` is a canonical digit string, and reading it back gives `n`. */
  lemma {:induction false} DigitsRoundTrip(n: nat, base: Base)
    ensures Value(Digits(n, base), base) == n
    ensures DigitsBelow(Digits(n, base), base) && Canonical(Digits(n, base))
    decreases n
  {
    if n >= base {
      var init := Digits(n / base, base);
      DivMod(n, 0, 0, base);
      DigitsRoundTrip(n / base, base);
      assert Digits(n, base) == init + [n % base];
      assert (init + [n % base])[..|init|] == init;
      assert (init + [n % base])[0] == init[0];
    }
  }

  /** A number below the base has one digit, any other at least two. */
  lemma DigitsLength(n: nat, base: Base)
    ensures n < base <==> |Digits(n, base)| == 1
  {
    if n >= base {
      DivMod(n, 0, 0, base);
      DigitsRoundTrip(n / base, base);
    }
  }

  /** Only one canonical digit string denotes a number: `Digits` is the inverse of `Value`. */
  lemma {:induction false} CanonicalIsDigits(ds: seq<nat>, base: Base)
    requires DigitsBelow(ds, base) && Canonical(ds)
    ensures Digits(Value(ds, base), base) == ds
    decreases |ds|
  {
    var n := Value(ds, base);
    if |ds| == 1 {
      assert ds[..0] == [];
    } else {
      var init, last := ds[..|ds| - 1], ds[|ds| - 1];
      assert init[0] == ds[0];
      CanonicalIsDigits(init, base);
      var m := Value(init, base);
      ValueAtLeastLeading(init, base);
      DivMod(n, m, last, base);
      assert ds == init + [last];
    }
  }

  /** A canonical string denotes at least its leading digit, and one of two or more digits is not zero. */
  lemma {:induction false} ValueAtLeastLeading(ds: seq<nat>, base: Base)
    requires Canonical(ds)
    ensures Value(ds, base) >= ds[0]
    ensures |ds| > 1 ==> Value(ds, base) >= 1
    decreases |ds|
  {
    if |ds| > 1 {
      var init := ds[..|ds| - 1];
      assert init[0] == ds[0];
      ValueAtLeastLeading(init, base);
    } else {
      assert ds[..0] == [];
    }
  }
}
