/** `float(text)` on the price strings of the daily time series, read as an
    exact non-negative decimal instead of the nearest binary double. */
module Decimal {
  import opened Base
  import opened Digits

  /** Position of the first '.' in `s`, or `|s|` when there is none. */
  function DotIndex(s: string): (k: nat)
    ensures k <= |s|
    ensures k < |s| ==> s[k] == '.'
    ensures forall i :: 0 <= i < k ==> s[i] != '.'
    decreases |s|
  {
    if |s| == 0 || s[0] == '.' then 0 else 1 + DotIndex(s[1..])
  }

  /** The unsigned numerals this model reads: digits, optionally followed by a
      point and more digits, with at least one digit in all ("7", "101.95",
      "101." and ".5" all qualify). */
  predicate IsDecimalNumeral(text: string) {
    || (1 <= |text| && AllDigits(text))
    || exists k :: 0 <= k < |text| && text[k] == '.' && 2 <= |text|
                   && AllDigits(text[..k]) && AllDigits(text[k + 1..])
  }

  /** The digits before the first point and the digits after it (empty
      when there is no point). */
  function SplitAtDot(text: string): (parts: (string, string))
    ensures DotIndex(text) == |text| ==> parts == (text, [])
    ensures DotIndex(text) < |text| ==> parts == (text[..DotIndex(text)], text[DotIndex(text) + 1..])
  {
    var k := DotIndex(text);
    assert text[..|text|] == text;
    (text[..k], if k < |text| then text[k + 1..] else [])
  }

  /** An exact decimal: `units` divided by ten to the power `scale`. */
  datatype Fixed = Fixed(units: nat, scale: nat) {
    function Value(): (v: real)
      ensures v >= 0.0
    {
      units as real / Pow10(scale) as real
    }
  }

  /** Reads a price string as an exact decimal: the digits with the point
      taken out, scaled by the number of digits after the point. Strings
      that are not decimal numerals fail as `float` does. */
  function ParseDecimal(text: string): (r: Result<Fixed>)
    ensures r.Err? ==> r.failure == NotANumber(text)
  {
    var (whole, frac) := SplitAtDot(text);
    if AllDigits(whole) && AllDigits(frac) && 1 <= |whole| + |frac| then
      ValueOfAppend(whole, frac);
      Ok(Fixed(ValueOf(whole + frac), |frac|))
    else
      Err(NotANumber(text))
  }

  /** The strings that parse are exactly the decimal numerals. */
  lemma ParseAcceptsNumerals(text: string)
    ensures ParseDecimal(text).Ok? <==> IsDecimalNumeral(text)
  {
    if ParseDecimal(text).Ok? {
      ParsedIsNumeral(text);
    }
    if IsDecimalNumeral(text) {
      NumeralParses(text);
    }
  }

  lemma ParsedIsNumeral(text: string)
    requires ParseDecimal(text).Ok?
    ensures IsDecimalNumeral(text)
  {
    var k := DotIndex(text);
    if k < |text| {
      assert text == text[..k] + "." + text[k + 1..];
    }
  }

  lemma NumeralParses(text: string)
    requires IsDecimalNumeral(text)
    ensures ParseDecimal(text).Ok?
  {
    var k := DotIndex(text);
    if k < |text| {
      var j :| 0 <= j < |text| && text[j] == '.' && 2 <= |text|
               && AllDigits(text[..j]) && AllDigits(text[j + 1..]);
      forall i | 0 <= i < j
        ensures text[i] != '.'
      {
        assert IsDigit(text[..j][i]);
      }
      assert k == j;
    }
  }

  /** The value of a concatenation of numerals. */
  lemma {:induction false} ValueOfAppend(a: string, b: string)
    requires AllDigits(a) && AllDigits(b)
    ensures AllDigits(a + b)
    ensures ValueOf(a + b) == ValueOf(a) * Pow10(|b|) + ValueOf(b)
    decreases |b|
  {
    if |b| == 0 {
      assert a + b == a;
    } else {
      var b' := b[..|b| - 1];
      var c := b[|b| - 1];
      assert b == b' + [c];
      assert a + b == (a + b') + [c];
      ValueOfAppend(a, b');
      ValueOfSnoc(a + b', c);
      ValueOfSnoc(b', c);
      var va, vb', d, p' := ValueOf(a), ValueOf(b'), DigitValue(c), Pow10(|b'|);
      calc {
        ValueOf(a + b);
        ValueOf(a + b') * 10 + d;
        (va * p' + vb') * 10 + d;
        { MulAssoc(va, p', 10); }
        va * (p' * 10) + (vb' * 10 + d);
        va * Pow10(|b|) + ValueOf(b);
      }
    }
  }

  lemma MulAssoc(x: nat, y: nat, z: nat)
    ensures (x * y) * z == x * (y * z)
  {
  }

  /** A numeral without a point reads as the integer it spells. */
  lemma IntegerValue(w: string)
    requires 1 <= |w| && AllDigits(w)
    ensures ParseDecimal(w).Ok? && ParseDecimal(w).value.Value() == ValueOf(w) as real
  {
    assert w[..|w|] == w;
    assert SplitAtDot(w) == (w, []);
    assert w + [] == w;
    assert ParseDecimal(w) == Ok(Fixed(ValueOf(w), 0));
    assert Pow10(0) == 1;
  }

  /** "w.f" reads as the whole part w plus the fraction digits f scaled down
      by ten per digit. */
  lemma WholePlusFraction(w: string, f: string)
    requires AllDigits(w) && AllDigits(f) && 1 <= |w| + |f|
    ensures var r := ParseDecimal(w + "." + f);
      r.Ok? && r.value.Value() == ValueOf(w) as real + ValueOf(f) as real / Pow10(|f|) as real
  {
    SplitPointed(w, f);
    ValueOfAppend(w, f);
    assert ParseDecimal(w + "." + f) == Ok(Fixed(ValueOf(w + f), |f|));
    FixedSplit(ValueOf(w + f), |f|, ValueOf(w), ValueOf(f));
  }

  lemma FixedSplit(n: nat, k: nat, a: nat, b: nat)
    requires n == a * Pow10(k) + b
    ensures Fixed(n, k).Value() == a as real + b as real / Pow10(k) as real
  {
    ShiftPoint(a, b, Pow10(k));
  }

  lemma SplitPointed(w: string, f: string)
    requires AllDigits(w)
    ensures SplitAtDot(w + "." + f) == (w, f)
  {
    var text := w + "." + f;
    var k := DotIndex(text);
    assert text[|w|] == '.';
    assert text[..k] == w;
    assert text[k + 1..] == f;
  }

  lemma ShiftPoint(a: nat, b: nat, p: nat)
    requires p >= 1
    ensures a as real + b as real / p as real == (a * p + b) as real / p as real
  {
    var q := p as real;
    assert a as real == (a as real * q) / q;
    assert (a * p) as real == a as real * q;
  }

  /** Trailing zeros after the point do not change the value read
      ("101.9500" and "101.95" are the same price). */
  lemma TrailingZero(w: string, f: string)
    requires AllDigits(w) && AllDigits(f) && 1 <= |w| + |f|
    ensures ParseDecimal(w + "." + f).Ok?
    ensures ParseDecimal(w + "." + f + "0").Ok?
    ensures ParseDecimal(w + "." + f + "0").value.Value() == ParseDecimal(w + "." + f).value.Value()
  {
    SplitPointed(w, f);
    assert w + "." + f + "0" == w + "." + (f + "0");
    SplitPointed(w, f + "0");
    assert w + (f + "0") == (w + f) + ['0'];
    ValueOfAppend(w, f);
    ValueOfSnoc(w + f, '0');
    CancelTen(ValueOf(w + f), Pow10(|f|));
  }

  lemma CancelTen(n: nat, p: nat)
    requires p >= 1
    ensures (n * 10) as real / (10 * p) as real == n as real / p as real
  {
    var q := p as real;
    assert (n * 10) as real == n as real * 10.0;
    assert (10 * p) as real == 10.0 * q;
  }
}
