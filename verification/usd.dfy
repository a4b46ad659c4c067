/** `to_usd`: a price rendered as "$", the whole dollars with a comma between
    every three digits, a point and exactly two digits of cents. The amount is
    an exact real rather than a binary double. */
module Usd {
  import opened Base
  import opened Digits

  /** Rounds to whole cents, half-way cases to the even neighbour, the rule the
      two-decimal format applies to the exact value it is given. */
  function RoundToCents(amount: real): (cents: nat)
    requires amount >= 0.0
    ensures cents as real - 0.5 <= amount * 100.0 <= cents as real + 0.5
    ensures amount * 100.0 == cents as real - 0.5 ==> cents % 2 == 0
    ensures amount * 100.0 == cents as real + 0.5 ==> cents % 2 == 0
  {
    var scaled := amount * 100.0;
    var whole := scaled.Floor;
    var frac := scaled - whole as real;
    if frac < 0.5 then whole
    else if frac > 0.5 then whole + 1
    else if whole % 2 == 0 then whole
    else whole + 1
  }

  /** Nearest-cent with ties to even leaves no choice: any count of cents
      within half a cent of the amount, and even on a tie, is the rounded one. */
  lemma RoundingIsUnique(amount: real, c: nat)
    requires amount >= 0.0
    requires c as real - 0.5 <= amount * 100.0 <= c as real + 0.5
    requires amount * 100.0 == c as real - 0.5 ==> c % 2 == 0
    requires amount * 100.0 == c as real + 0.5 ==> c % 2 == 0
    ensures c == RoundToCents(amount)
  {
  }

  /** The digit-group shape `\d{1,3}(,\d{3})*`: one to three leading digits,
      then any number of groups of a comma and exactly three digits. */
  predicate IsGrouped(g: string)
    decreases |g|
  {
    || (1 <= |g| <= 3 && AllDigits(g))
    || (5 <= |g| && g[|g| - 4] == ',' && AllDigits(g[|g| - 3..]) && IsGrouped(g[..|g| - 4]))
  }

  /** `s` with every comma deleted. */
  function RemoveCommas(s: string): (t: string)
    ensures |t| <= |s|
    decreases |s|
  {
    if |s| == 0 then []
    else RemoveCommas(s[..|s| - 1]) + (if s[|s| - 1] == ',' then [] else [s[|s| - 1]])
  }

  lemma {:induction false} RemoveCommasAppend(a: string, b: string)
    ensures RemoveCommas(a + b) == RemoveCommas(a) + RemoveCommas(b)
    decreases |b|
  {
    if |b| == 0 {
      assert a + b == a;
    } else {
      var b' := b[..|b| - 1];
      assert (a + b)[..|a + b| - 1] == a + b';
      RemoveCommasAppend(a, b');
    }
  }

  lemma {:induction false} RemoveCommasOfDigits(d: string)
    requires AllDigits(d)
    ensures RemoveCommas(d) == d
    decreases |d|
  {
    if |d| > 0 {
      RemoveCommasOfDigits(d[..|d| - 1]);
      assert d == d[..|d| - 1] + [d[|d| - 1]];
    }
  }

  /** Inserts a comma between every three digits, counting from the right. */
  function Group(d: string): string
    requires 1 <= |d| && AllDigits(d)
    decreases |d|
  {
    if |d| <= 3 then d else Group(d[..|d| - 3]) + "," + d[|d| - 3..]
  }

  /** Grouping gives the `\d{1,3}(,\d{3})*` shape and only inserts commas:
      deleting them gives the digits back. */
  lemma {:induction false} GroupShape(d: string)
    requires 1 <= |d| && AllDigits(d)
    ensures IsGrouped(Group(d))
    ensures RemoveCommas(Group(d)) == d
    decreases |d|
  {
    if |d| <= 3 {
      RemoveCommasOfDigits(d);
    } else {
      var head, tail := d[..|d| - 3], d[|d| - 3..];
      GroupShape(head);
      AppendGroup(Group(head), tail);
      assert head + tail == d;
    }
  }

  /** Appending a comma and a group of three digits to a grouped numeral
      keeps the shape and appends the three digits to its digits. */
  lemma AppendGroup(h: string, tail: string)
    requires IsGrouped(h)
    requires |tail| == 3 && AllDigits(tail)
    ensures IsGrouped(h + "," + tail)
    ensures RemoveCommas(h + "," + tail) == RemoveCommas(h) + tail
  {
    var g := h + "," + tail;
    assert g[..|g| - 4] == h && g[|g| - 3..] == tail;
    RemoveCommasAppend(h + ",", tail);
    RemoveCommasAppend(h, ",");
    RemoveCommasOfDigits(tail);
  }

  /** Deleting the commas of a grouped numeral leaves its (non-empty) digits;
      the last group contributes its three digits at the end. */
  lemma {:induction false} GroupedDigits(g: string)
    requires IsGrouped(g)
    ensures 1 <= |RemoveCommas(g)| && AllDigits(RemoveCommas(g))
    ensures 5 <= |g| ==> RemoveCommas(g) == RemoveCommas(g[..|g| - 4]) + g[|g| - 3..]
    decreases |g|
  {
    if |g| <= 3 {
      RemoveCommasOfDigits(g);
    } else {
      var h, tail := g[..|g| - 4], g[|g| - 3..];
      assert g == (h + ",") + tail;
      RemoveCommasAppend(h + ",", tail);
      RemoveCommasAppend(h, ",");
      RemoveCommasOfDigits(tail);
      GroupedDigits(h);
    }
  }

  /** Grouping the digits of a grouped numeral gives it back: the grouping
      is the only one of the `\d{1,3}(,\d{3})*` shape. */
  lemma {:induction false} RegroupIsIdentity(g: string)
    requires IsGrouped(g)
    ensures 1 <= |RemoveCommas(g)| && AllDigits(RemoveCommas(g))
    ensures Group(RemoveCommas(g)) == g
    decreases |g|
  {
    GroupedDigits(g);
    if |g| <= 3 {
      RemoveCommasOfDigits(g);
    } else {
      var h, tail := g[..|g| - 4], g[|g| - 3..];
      assert g == h + "," + tail;
      RegroupIsIdentity(h);
      GroupSplit(RemoveCommas(h), tail);
    }
  }

  /** Grouping a numeral of more than three digits puts its last three digits
      after a comma. */
  lemma GroupSplit(head: string, tail: string)
    requires 1 <= |head| && AllDigits(head)
    requires |tail| == 3 && AllDigits(tail)
    ensures AllDigits(head + tail)
    ensures Group(head + tail) == Group(head) + "," + tail
  {
    var d := head + tail;
    assert d[..|d| - 3] == head;
    assert d[|d| - 3..] == tail;
  }

  /** The text after the "$": grouped whole part, a point, two cent digits. */
  predicate IsAmountShape(s: string) {
    4 <= |s| && IsGrouped(s[..|s| - 3]) && s[|s| - 3] == '.' && AllDigits(s[|s| - 2..])
  }

  lemma TwoDigits(a: char, b: char)
    requires IsDigit(a) && IsDigit(b)
    ensures AllDigits([a, b])
    ensures ValueOf([a, b]) == DigitValue(a) * 10 + DigitValue(b)
  {
    assert [] + [a] == [a] && [a] + [b] == [a, b];
    assert ValueOf([]) == 0;
    ValueOfSnoc([], a);
    ValueOfSnoc([a], b);
  }

  /** Renders a count of cents: whole dollars grouped by thousands, then the
      cents as exactly two digits. */
  function CentsText(c: nat): string {
    DigitsOfCanonical(c / 100);
    Group(DigitsOf(c / 100)) + "." + [DigitChar(c % 100 / 10), DigitChar(c % 10)]
  }

  /** A rendered amount has the amount shape; its commas removed, the whole
      part is the decimal numeral of the dollars, and the two digits after the
      point are the cents left over. */
  lemma CentsTextShape(c: nat)
    ensures var s := CentsText(c);
      && IsAmountShape(s)
      && RemoveCommas(s[..|s| - 3]) == DigitsOf(c / 100)
      && ValueOf(s[|s| - 2..]) == c % 100
  {
    DigitsOfCanonical(c / 100);
    GroupShape(DigitsOf(c / 100));
    var dollars := Group(DigitsOf(c / 100));
    var tens, units := DigitChar(c % 100 / 10), DigitChar(c % 10);
    TwoDigits(tens, units);
    CentDigits(c);
    AmountParts(dollars, [tens, units]);
  }

  lemma CentDigits(c: nat)
    ensures c % 100 / 10 * 10 + c % 10 == c % 100
  {
    var q, r := c / 100, c % 100;
    assert c == 10 * (10 * q + r / 10) + r % 10;
    ModOfSum(c, 10 * q + r / 10, r % 10);
  }

  /** The remainder by ten of `10 * q + d`, for a digit `d`, is `d`. */
  lemma ModOfSum(c: nat, q: nat, d: nat)
    requires d < 10 && c == 10 * q + d
    ensures c % 10 == d
  {
  }

  /** An amount text splits back into its grouped dollars and two cent digits. */
  lemma AmountParts(dollars: string, cents: string)
    requires IsGrouped(dollars)
    requires |cents| == 2 && AllDigits(cents)
    ensures var s := dollars + "." + cents;
      IsAmountShape(s) && s[..|s| - 3] == dollars && s[|s| - 2..] == cents
  {
    var s := dollars + "." + cents;
    assert s[..|s| - 3] == dollars;
    assert s[|s| - 2..] == cents;
  }

  /** Reads an amount text back into cents; `None` when it is not of the
      amount shape. */
  function ParseAmount(s: string): Option<nat> {
    if IsAmountShape(s) then
      GroupedDigits(s[..|s| - 3]);
      Some(ValueOf(RemoveCommas(s[..|s| - 3])) * 100 + ValueOf(s[|s| - 2..]))
    else
      None
  }

  /** Reading a rendered amount gives back the cents it was rendered from. */
  lemma ParseCentsText(c: nat)
    ensures ParseAmount(CentsText(c)) == Some(c)
  {
    CentsTextShape(c);
    ValueOfDigitsOf(c / 100);
  }

  /** Every amount text whose whole part has no leading zero is the rendering
      of the cents it reads as: rendering is onto the canonical texts. */
  lemma RenderParsedAmount(s: string)
    requires IsAmountShape(s)
    requires Canonical(RemoveCommas(s[..|s| - 3]))
    ensures ParseAmount(s).Some? && CentsText(ParseAmount(s).value) == s
  {
    var g, two := s[..|s| - 3], s[|s| - 2..];
    assert s == g + "." + two;
    assert two == [two[0], two[1]];
    var d := RemoveCommas(g);
    var v0, v1 := DigitValue(two[0]), DigitValue(two[1]);
    TwoDigits(two[0], two[1]);
    var c := ParseAmount(s).value;
    assert c == ValueOf(d) * 100 + (v0 * 10 + v1);
    SplitCents(ValueOf(d), v0, v1);
    DigitsOfValueOf(d);
    RegroupIsIdentity(g);
    DigitCharOfValue(two[0]);
    DigitCharOfValue(two[1]);
  }

  lemma SplitCents(dollars: nat, tens: nat, units: nat)
    requires tens < 10 && units < 10
    ensures var c := dollars * 100 + (tens * 10 + units);
      c / 100 == dollars && c % 100 / 10 == tens && c % 10 == units
  {
  }

  /** `to_usd`: "$", a minus sign for a negative amount, then the amount's
      magnitude rounded to cents. */
  function ToUsd(amount: real): (s: string)
    ensures 2 <= |s| && s[0] == '$'
  {
    var magnitude := if amount < 0.0 then -amount else amount;
    "$" + (if amount < 0.0 then "-" else "") + CentsText(RoundToCents(magnitude))
  }

  /** The format of a non-negative amount, stated on the whole string: "$",
      the dollars in groups of three digits (the first group one to three
      digits), whose digits are the rounded dollars, then "." and two digits
      holding the rounded cents. */
  lemma UsdFormat(amount: real)
    requires amount >= 0.0
    ensures var s := ToUsd(amount);
      && 5 <= |s|
      && s[0] == '$'
      && IsGrouped(s[1..|s| - 3])
      && RemoveCommas(s[1..|s| - 3]) == DigitsOf(RoundToCents(amount) / 100)
      && s[|s| - 3] == '.'
      && AllDigits(s[|s| - 2..])
      && ValueOf(s[|s| - 2..]) == RoundToCents(amount) % 100
  {
    var c := RoundToCents(amount);
    var t := CentsText(c);
    CentsTextShape(c);
    var s := ToUsd(amount);
    assert s == "$" + t;
    assert s[1..|s| - 3] == t[..|t| - 3];
    assert s[|s| - 2..] == t[|t| - 2..];
  }

  /** Reading back the text after the "$" gives the amount rounded to cents. */
  lemma UsdReadsBack(amount: real)
    requires amount >= 0.0
    ensures ParseAmount(ToUsd(amount)[1..]) == Some(RoundToCents(amount))
  {
    var c := RoundToCents(amount);
    assert ToUsd(amount)[1..] == CentsText(c);
    ParseCentsText(c);
  }

  /** A negative amount renders as its magnitude with a minus sign between
      the "$" and the digits. */
  lemma UsdNegativeSign(amount: real)
    requires amount < 0.0
    ensures ToUsd(amount) == "$-" + ToUsd(-amount)[1..]
  {
    var t := CentsText(RoundToCents(-amount));
    assert ToUsd(-amount) == "$" + t;
    assert ToUsd(-amount)[1..] == t;
  }
}
