/** The two early exits of the script: the symbol-shape check
    (app/robo_advisor.py:26-28) and the error-response guard
    (app/robo_advisor.py:36-38). */
module Validation {
  import opened Base

  /** Python's `str.isdigit` on the characters this model knows: true for a
      non-empty string of decimal digits. */
  predicate IsDigitString(s: string) {
    1 <= |s| && AllDigits(s)
  }

  /** The condition of app/robo_advisor.py:26 negated: the symbol goes on to
      the request unless it is all digits or its length is outside 1..5. */
  function SymbolAccepted(symbol: string): (ok: bool)
    ensures ok <==> 1 <= |symbol| <= 5 && exists i :: 0 <= i < |symbol| && !IsDigit(symbol[i])
  {
    var length := |symbol|;
    !(IsDigitString(symbol) || (length < 1 || length > 5))
  }

  /** Python's `pat in text` for strings. */
  function Contains(text: string, pat: string): bool
    decreases |text|
  {
    |pat| <= |text| && (text[..|pat|] == pat || Contains(text[1..], pat))
  }

  /** `pat` sits in `text` starting at position `i`. */
  predicate OccursAt(text: string, pat: string, i: int) {
    0 <= i && i + |pat| <= |text| && text[i..i + |pat|] == pat
  }

  /** `pat` occurs in `text` exactly when it sits at some position. */
  lemma {:induction false} ContainsSpec(text: string, pat: string)
    ensures Contains(text, pat) <==> exists i :: OccursAt(text, pat, i)
    decreases |text|
  {
    if |pat| > |text| {
      assert forall i :: !OccursAt(text, pat, i);
    } else if text[..|pat|] == pat {
      assert OccursAt(text, pat, 0);
    } else {
      var rest := text[1..];
      ContainsSpec(rest, pat);
      if Contains(rest, pat) {
        var i :| OccursAt(rest, pat, i);
        assert text[i + 1..i + 1 + |pat|] == rest[i..i + |pat|];
        assert OccursAt(text, pat, i + 1);
      } else {
        forall i | OccursAt(text, pat, i)
          ensures i >= 1 && OccursAt(rest, pat, i - 1)
        {
          assert rest[i - 1..i - 1 + |pat|] == text[i..i + |pat|];
        }
      }
    }
  }

  /** The text the service puts in a response for an unknown symbol. */
  const ErrorMarker := "Error Message"

  /** `"Error Message" in response.text`. */
  function IsErrorResponse(responseText: string): (err: bool)
    ensures err <==> exists i :: OccursAt(responseText, ErrorMarker, i)
  {
    ContainsSpec(responseText, ErrorMarker);
    Contains(responseText, ErrorMarker)
  }

  /** The marker anywhere in the text, with anything around it, makes the
      response an error response. */
  lemma MarkerAnywhere(before: string, after: string)
    ensures IsErrorResponse(before + ErrorMarker + after)
  {
    var text := before + ErrorMarker + after;
    assert text[|before|..|before| + |ErrorMarker|] == ErrorMarker;
    assert OccursAt(text, ErrorMarker, |before|);
  }

  /** A response shorter than the marker cannot hold it. */
  lemma ShortResponseIsNotError(responseText: string)
    requires |responseText| < |ErrorMarker|
    ensures !IsErrorResponse(responseText)
  {
    assert forall i :: !OccursAt(responseText, ErrorMarker, i);
  }

  lemma SymbolExamples()
    ensures SymbolAccepted("MSFT")
    ensures SymbolAccepted("A1")
    ensures !SymbolAccepted("123")
    ensures !SymbolAccepted("")
    ensures !SymbolAccepted("ABCDEF")
  {
    assert !IsDigit("MSFT"[0]);
    assert !IsDigit("A1"[0]);
  }
}
