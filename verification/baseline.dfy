/**
  The baseline allocator: spreads the bulk of the required change evenly
  over all rows in whole Steps, then lifts any row that fell below the floor
  back up to the floor.
 */
module Baseline {
  import opened MassSeries

  /**
    Integer division rounding toward zero, as Python's `int()` does to the
    quotient of a float division. Dafny's own `/` is Euclidean and rounds a
    negative numerator down instead, which would overshoot a negative change.
    The quotient times `b` never passes `a` and never has the opposite sign,
    and it is within one `b` of `a`.
   */
  function TruncDiv(a: int, b: int): (q: int)
    requires b > 0
    ensures 0 <= a ==> 0 <= q * b <= a < q * b + b
    ensures a < 0 ==> q * b - b < a <= q * b <= 0
  {
    if a >= 0 then
      EuclidBounds(a, b);
      a / b
    else
      EuclidBounds(-a, b);
      -((-a) / b)
  }

  /** For a non-negative numerator Dafny's quotient rounds down and stays non-negative. */
  lemma EuclidBounds(a: int, b: int)
    requires a >= 0 && b > 0
    ensures 0 <= a / b
    ensures 0 <= (a / b) * b <= a < (a / b) * b + b
  {
  }

  /**
    The per-row change, in Steps, that brings `values` towards `target`: the
    difference `target - Sum(values)` shared over the rows and truncated
    toward zero, so the baseline applied to all rows never overshoots the
    difference and falls short of it by less than one Step per row.
   */
  function BaselineSteps(values: seq<int>, target: int): (b: int)
    requires |values| > 0
    ensures var diff := target - Sum(values);
            && (diff >= 0 ==> 0 <= b * |values| <= diff < b * |values| + |values|)
            && (diff < 0 ==> b * |values| - |values| < diff <= b * |values| <= 0)
  {
    TruncDiv(target - Sum(values), |values|)
  }

  /** A row after the baseline shift: lifted to the floor if it fell below. */
  function Clamp(v: int): int
  {
    if v < Floor then Floor else v
  }

  /**
    Adds `b` Steps to every row and clamps each row to the floor. Only a row
    whose shifted value lies below the floor differs from its shifted value,
    and such a row is raised to exactly the floor.
   */
  function ApplyBaseline(values: seq<int>, b: int): (r: seq<int>)
    ensures |r| == |values|
    ensures AboveFloor(r)
    ensures forall i :: 0 <= i < |values| ==> (r[i] == values[i] + b <==> values[i] + b >= Floor)
    ensures forall i :: 0 <= i < |values| && values[i] + b < Floor ==> r[i] == Floor
  {
    seq(|values|, i requires 0 <= i < |values| => Clamp(values[i] + b))
  }

  /**
    When no row is clamped, the baseline pass leaves less than one Step per
    row to the remainder distributor, on the same side of zero as the
    original change: the remainder is at most `n - 1` Steps in magnitude.
   */
  lemma BaselineRemainderSmall(values: seq<int>, target: int)
    requires |values| > 0
    requires forall i :: 0 <= i < |values| ==> values[i] + BaselineSteps(values, target) >= Floor
    ensures var diff := target - Sum(values);
            var leftover := target - Sum(ApplyBaseline(values, BaselineSteps(values, target)));
            (diff >= 0 ==> 0 <= leftover < |values|) && (diff < 0 ==> -|values| < leftover <= 0)
  {
    var b := BaselineSteps(values, target);
    SumShift(values, ApplyBaseline(values, b), b);
  }

  /** A zero change gives a zero baseline, and the pass leaves a floor-respecting series untouched. */
  lemma BaselineOfBalancedSeries(values: seq<int>)
    requires |values| > 0
    requires AboveFloor(values)
    ensures BaselineSteps(values, Sum(values)) == 0
    ensures ApplyBaseline(values, BaselineSteps(values, Sum(values))) == values
  {
  }
}
