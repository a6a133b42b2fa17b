/**
 * Continuity check (`is_continuous_number_series`): a sequence of optional
 * numbers is continuous when nothing is missing and each number is one more
 * than the one before it.
 */
module Continuity {
  import opened Wrappers

  /**
   * Walks the series pair by pair. Its contract is the closed form: the series
   * is the run `x, x + 1, x + 2, ...` starting at its first element.
   */
  function IsContinuousNumberSeries(xs: seq<Option<int>>): (r: bool)
    ensures r <==> |xs| == 0 || (xs[0].Some? && forall i :: 0 <= i < |xs| ==> xs[i] == Some(xs[0].value + i))
  {
    if |xs| == 0 then true
    else if xs[0].None? then false
    else if |xs| == 1 then true
    else xs[1] == Some(xs[0].value + 1) && IsContinuousNumberSeries(xs[1..])
  }

  /** Every element is present. */
  predicate AllPresent(xs: seq<Option<int>>) {
    forall i :: 0 <= i < |xs| ==> xs[i].Some?
  }

  /** Each present element is its predecessor plus one. */
  predicate StepsOfOne(xs: seq<Option<int>>)
    requires AllPresent(xs)
  {
    forall i :: 0 < i < |xs| ==> xs[i].value == xs[i - 1].value + 1
  }

  /**
   * The local reading of continuity: false as soon as any element, at any
   * position, is missing, or any single step is not exactly one.
   */
  lemma ContinuousIffPresentWithUnitSteps(xs: seq<Option<int>>)
    ensures IsContinuousNumberSeries(xs) <==> AllPresent(xs) && StepsOfOne(xs)
  {
    if AllPresent(xs) && StepsOfOne(xs) && |xs| > 0 {
      var k := 0;
      while k < |xs|
        invariant k <= |xs|
        invariant forall i :: 0 <= i < k ==> xs[i] == Some(xs[0].value + i)
      {
        assert xs[k].Some?;
        if k > 0 {
          assert xs[k].value == xs[k - 1].value + 1;
        }
        k := k + 1;
      }
    }
  }

  /** A run of consecutive numbers, all present, is continuous wherever it starts. */
  lemma ConsecutiveIsContinuous(xs: seq<Option<int>>, start: int)
    requires forall i :: 0 <= i < |xs| ==> xs[i] == Some(start + i)
    ensures IsContinuousNumberSeries(xs)
  {
  }
}
