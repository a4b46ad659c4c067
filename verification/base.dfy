/** Shared vocabulary of the robo-advisor model: optional values, the ways a run
    of the script can stop on an uncaught exception, a failure-compatible result
    type, and decimal-digit characters. */
module Base {

  datatype Option<+T> = None | Some(value: T)

  /** The exceptions the script can raise once it has a parsed payload. */
  datatype Failure =
    | MissingKey(key: string)    // a dictionary lookup raised KeyError
    | EmptySeries                // `dates[0]` on an empty time series raised IndexError
    | NotANumber(text: string)   // `float(text)` raised ValueError

  /** Either a value or the exception that stopped the computation;
      usable with `:-` so that the first failure propagates. */
  datatype Result<+T> = Ok(value: T) | Err(failure: Failure) {

    predicate IsFailure() {
      Err?
    }

    function PropagateFailure<U>(): Result<U>
      requires Err?
    {
      Err(failure)
    }

    function Extract(): T
      requires Ok?
    {
      value
    }
  }

  predicate IsDigit(c: char) {
    '0' <= c <= '9'
  }

  predicate AllDigits(s: string) {
    forall i :: 0 <= i < |s| ==> IsDigit(s[i])
  }

  function DigitValue(c: char): (d: nat)
    requires IsDigit(c)
    ensures d < 10
  {
    c as int - '0' as int
  }

  function DigitChar(d: nat): (c: char)
    requires d < 10
    ensures IsDigit(c) && DigitValue(c) == d
  {
    ('0' as int + d) as char
  }

  lemma DigitCharOfValue(c: char)
    requires IsDigit(c)
    ensures DigitChar(DigitValue(c)) == c
  {
  }
}
