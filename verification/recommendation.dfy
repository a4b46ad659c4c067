/** The buy/don't-buy rule of app/robo_advisor.py:104-110, on exact reals. */
module Recommendation {

  datatype Decision = Buy | DontBuy

  /** The factor of `1.2*recent_low`: BUY only below 120% of the low. */
  const Ceiling: real := 1.2

  /** BUY when the latest close is at least the recent low and below 1.2
      times it. */
  function Recommend(latestClose: real, recentLow: real): (d: Decision)
    ensures d == Buy ==> recentLow <= latestClose
    ensures d == Buy ==> latestClose < Ceiling * recentLow
    ensures latestClose < recentLow ==> d == DontBuy
  {
    if recentLow <= latestClose && latestClose < Ceiling * recentLow then Buy else DontBuy
  }

  /** The rule read as its printed reason says: BUY exactly when the close is
      above a positive low by less than 20% of that low. A low of zero (or
      below) never gives BUY. */
  lemma BuyWithinTwentyPercent(latestClose: real, recentLow: real)
    ensures Recommend(latestClose, recentLow) == Buy <==>
      recentLow > 0.0 && 0.0 <= (latestClose - recentLow) / recentLow < 0.2
  {
    if recentLow > 0.0 {
      var rise := latestClose - recentLow;
      RatioBelow(rise, recentLow, 0.2);
      RatioAtLeastZero(rise, recentLow);
    }
  }

  lemma RatioBelow(x: real, y: real, k: real)
    requires y > 0.0
    ensures x / y < k <==> x < k * y
  {
    assert x == (x / y) * y;
  }

  lemma RatioAtLeastZero(x: real, y: real)
    requires y > 0.0
    ensures 0.0 <= x / y <==> 0.0 <= x
  {
    assert x == (x / y) * y;
  }

  /** A positive low is the only kind of low under which BUY can happen. */
  lemma BuyNeedsPositiveLow(latestClose: real, recentLow: real)
    requires Recommend(latestClose, recentLow) == Buy
    ensures recentLow > 0.0 && latestClose > 0.0
  {
  }

  /** Closing exactly at the low buys; closing exactly at 1.2 times the low,
      or anywhere above it, does not. */
  lemma Boundaries(recentLow: real)
    requires recentLow > 0.0
    ensures Recommend(recentLow, recentLow) == Buy
    ensures forall c :: c >= Ceiling * recentLow ==> Recommend(c, recentLow) == DontBuy
  {
  }

  /** The close at the low of the series gives BUY; 119.99 against a low of
      100 still gives BUY; 120 against 100 does not, and neither does
      99.99. The close of the newest day of the six-day series of
      test/advisor_test.py against the lowest low of that series gives
      BUY. */
  lemma Examples()
    ensures Recommend(100.0, 100.0) == Buy
    ensures Recommend(119.99, 100.0) == Buy
    ensures Recommend(120.0, 100.0) == DontBuy
    ensures Recommend(99.99, 100.0) == DontBuy
    ensures Recommend(0.0, 0.0) == DontBuy
    ensures Recommend(101.63, 99.17) == Buy
  {
  }
}
