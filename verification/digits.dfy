/** Decimal numerals of natural numbers: rendering, reading back, and the fact
    that the two are inverse on numerals without leading zeros. */
module Digits {
  import opened Base

  /** A numeral as Python's `str(n)` writes a non-negative int: at least one
      digit and no leading zero unless the number is zero. */
  predicate Canonical(s: string) {
    1 <= |s| && AllDigits(s) && (s[0] == '0' ==> |s| == 1)
  }

  /** Decimal numeral of `n`, most significant digit first. */
  function DigitsOf(n: nat): string
    decreases n
  {
    if n < 10 then [DigitChar(n)] else DigitsOf(n / 10) + [DigitChar(n % 10)]
  }

  /** The rendering is a canonical numeral, one digit long exactly for the
      numbers below ten. */
  lemma {:induction false} DigitsOfCanonical(n: nat)
    ensures Canonical(DigitsOf(n))
    ensures n < 10 <==> |DigitsOf(n)| == 1
    decreases n
  {
    if n >= 10 {
      DigitsOfCanonical(n / 10);
    }
  }

  /** Value of a string of decimal digits, most significant first; the empty
      string reads as zero. */
  function ValueOf(s: string): nat
    requires AllDigits(s)
    decreases |s|
  {
    if |s| == 0 then 0 else ValueOf(s[..|s| - 1]) * 10 + DigitValue(s[|s| - 1])
  }

  function Pow10(k: nat): (p: nat)
    ensures p >= 1
  {
    if k == 0 then 1 else 10 * Pow10(k - 1)
  }

  /** A numeral of `k` digits stands for less than `10^k`. */
  lemma {:induction false} ValueOfBound(s: string)
    requires AllDigits(s)
    ensures ValueOf(s) < Pow10(|s|)
    decreases |s|
  {
    if |s| > 0 {
      ValueOfBound(s[..|s| - 1]);
    }
  }

  /** Appending one digit shifts the value left by one decimal place. */
  lemma ValueOfSnoc(s: string, c: char)
    requires AllDigits(s) && IsDigit(c)
    ensures AllDigits(s + [c])
    ensures ValueOf(s + [c]) == ValueOf(s) * 10 + DigitValue(c)
  {
    assert (s + [c])[..|s|] == s;
  }

  /** Reading back the rendered numeral gives the number. */
  lemma {:induction false} ValueOfDigitsOf(n: nat)
    ensures AllDigits(DigitsOf(n))
    ensures ValueOf(DigitsOf(n)) == n
    decreases n
  {
    DigitsOfCanonical(n);
    if n < 10 {
      assert DigitsOf(n)[..0] == [];
    } else {
      ValueOfDigitsOf(n / 10);
      DigitsOfCanonical(n / 10);
      ValueOfSnoc(DigitsOf(n / 10), DigitChar(n % 10));
    }
  }

  /** A numeral whose first digit is not zero stands for a positive number. */
  lemma {:induction false} LeadingDigitPositive(s: string)
    requires 1 <= |s| && AllDigits(s) && s[0] != '0'
    ensures ValueOf(s) > 0
    decreases |s|
  {
    if |s| > 1 {
      LeadingDigitPositive(s[..|s| - 1]);
    }
  }

  /** Rendering the value of a canonical numeral gives the numeral back. */
  lemma {:induction false} DigitsOfValueOf(s: string)
    requires Canonical(s)
    ensures DigitsOf(ValueOf(s)) == s
    decreases |s|
  {
    var last := s[|s| - 1];
    DigitCharOfValue(last);
    if |s| == 1 {
      assert s[..0] == [];
      assert s == [last];
    } else {
      var front := s[..|s| - 1];
      assert front[0] == s[0];
      DigitsOfValueOf(front);
      LeadingDigitPositive(front);
      assert s == front + [last];
    }
  }
}
