/** The worked examples of `to_usd`, assembled one small step at a time:
    digits of the dollars, their grouping, the cents text, the "$". */
module UsdExamples {
  import opened Base
  import opened Digits
  import opened Usd

  lemma DigitsStep(n: nat, s: string, c: char)
    requires n >= 10 && DigitsOf(n / 10) == s && DigitChar(n % 10) == c
    ensures DigitsOf(n) == s + [c]
  {
  }

  lemma CentsStep(c: nat, dollars: string, grouped: string)
    requires DigitsOf(c / 100) == dollars
    requires 1 <= |dollars| && AllDigits(dollars) && Group(dollars) == grouped
    ensures CentsText(c) == grouped + "." + [DigitChar(c % 100 / 10), DigitChar(c % 10)]
  {
  }

  lemma UsdStep(amount: real, c: nat, text: string)
    requires amount >= 0.0 && RoundToCents(amount) == c && CentsText(c) == text
    ensures ToUsd(amount) == "$" + text
  {
  }

  /** An amount less than half a cent above a whole count of cents rounds
      down to it. */
  lemma RoundsDown(amount: real, c: nat)
    requires c as real <= amount * 100.0 < c as real + 0.5
    ensures RoundToCents(amount) == c
  {
    assert (amount * 100.0).Floor == c;
  }

  lemma Digits1234567890()
    ensures DigitsOf(1234567890) == "1234567890"
  {
    DigitsStep(12, "1", '2');
    DigitsStep(123, "12", '3');
    DigitsStep(1234, "123", '4');
    DigitsStep(12345, "1234", '5');
    DigitsStep(123456, "12345", '6');
    DigitsStep(1234567, "123456", '7');
    DigitsStep(12345678, "1234567", '8');
    DigitsStep(123456789, "12345678", '9');
    DigitsStep(1234567890, "123456789", '0');
  }

  lemma Group1234()
    ensures Group("1234") == "1,234"
  {
    GroupSplit("1", "234");
    assert "1" + "234" == "1234";
  }

  lemma Group1234567()
    ensures Group("1234567") == "1,234,567"
  {
    Group1234();
    GroupSplit("1234", "567");
    assert "1234" + "567" == "1234567";
  }

  lemma Group1234567890()
    ensures Group("1234567890") == "1,234,567,890"
  {
    Group1234567();
    GroupSplit("1234567", "890");
    assert "1234567" + "890" == "1234567890";
  }

  lemma CentsThousands()
    ensures CentsText(123456789000) == "1,234,567,890" + ".00"
  {
    assert 123456789000 / 100 == 1234567890 && 123456789000 % 100 == 0;
    Digits1234567890();
    DigitsOfCanonical(1234567890);
    Group1234567890();
    CentsStep(123456789000, "1234567890", "1,234,567,890");
    assert "." + ['0', '0'] == ".00";
  }

  /** 12.5 dollars shows two decimals. */
  lemma UsdTwoDecimals()
    ensures ToUsd(12.5) == "$12.50"
  {
    RoundsDown(12.5, 1250);
    assert 1250 / 100 == 12 && 1250 % 100 / 10 == 5 && 1250 % 10 == 0;
    DigitsStep(12, "1", '2');
    CentsStep(1250, "12", "12");
    UsdStep(12.5, 1250, "12.50");
  }

  /** 12.52345 dollars rounds to 12.52. */
  lemma UsdRoundsToCents()
    ensures ToUsd(12.52345) == "$12.52"
  {
    RoundsDown(12.52345, 1252);
    assert 1252 / 100 == 12 && 1252 % 100 / 10 == 5 && 1252 % 10 == 2;
    DigitsStep(12, "1", '2');
    CentsStep(1252, "12", "12");
    UsdStep(12.52345, 1252, "12.52");
  }

  /** 1234567890 dollars shows thousands separators: "$1,234,567,890.00",
      written below as the concatenation of its sign, dollars and cents. */
  lemma UsdThousands()
    ensures ToUsd(1234567890.0) == "$" + "1,234,567,890" + ".00"
  {
    RoundsDown(1234567890.0, 123456789000);
    CentsThousands();
    UsdStep(1234567890.0, 123456789000, "1,234,567,890" + ".00");
  }
}
