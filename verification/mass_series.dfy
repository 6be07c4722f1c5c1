/**
  Mass series in fixed-point milli-kilograms.

  Every quantity of the gross-mass adjustment is counted in whole Steps of
  0.001 kg, so a row of 10.5 kg is the integer 10500. The Step is also the
  minimum floor: no adjusted row may hold less than one Step.
 */
module MassSeries {

  /** The quantisation unit, 0.001 kg, in milli-kilograms. */
  const Step: int := 1

  /** The smallest value any adjusted row may hold: one Step. */
  const Floor: int := 1

  /** The smallest total `n` rows can reach without any row falling below the floor. */
  function MinimumTotal(n: nat): int
  {
    n * Floor
  }

  /** Total of a series, added from the front. */
  function Sum(s: seq<int>): int
  {
    if |s| == 0 then 0 else s[0] + Sum(s[1..])
  }

  /** Every row of `s` is at or above the floor. */
  predicate AboveFloor(s: seq<int>)
  {
    forall i :: 0 <= i < |s| ==> s[i] >= Floor
  }

  /** Replacing one row moves the total by exactly the change of that row. */
  lemma {:induction false} SumUpdate(s: seq<int>, i: int, v: int)
    requires 0 <= i < |s|
    ensures Sum(s[i := v]) == Sum(s) - s[i] + v
  {
    if i == 0 {
      assert s[i := v][1..] == s[1..];
    } else {
      SumUpdate(s[1..], i - 1, v);
      assert s[i := v][1..] == s[1..][i - 1 := v];
    }
  }

  /** Adding the same amount `b` to every row moves the total by `|s| * b`. */
  lemma {:induction false} SumShift(s: seq<int>, t: seq<int>, b: int)
    requires |t| == |s|
    requires forall i :: 0 <= i < |s| ==> t[i] == s[i] + b
    ensures Sum(t) == Sum(s) + |s| * b
  {
    if |s| > 0 {
      SumShift(s[1..], t[1..], b);
      assert (|s| - 1) * b + b == |s| * b;
    }
  }

  /**
    A series above the floor holds at least one Step per row, and the
    slack of any single row above the floor is bounded by the slack of the
    whole series: `Sum(s) - |s|` is the number of one-Step decrements the
    series can still absorb.
   */
  lemma {:induction false} FloorSlack(s: seq<int>)
    requires AboveFloor(s)
    ensures Sum(s) >= MinimumTotal(|s|)
    ensures forall k :: 0 <= k < |s| ==> s[k] - Floor <= Sum(s) - MinimumTotal(|s|)
  {
    if |s| > 0 {
      FloorSlack(s[1..]);
      forall k | 0 <= k < |s|
        ensures s[k] - Floor <= Sum(s) - MinimumTotal(|s|)
      {
        if k > 0 {
          assert s[k] == s[1..][k - 1];
        }
      }
    }
  }

  /**
    If a series above the floor has a total above `|s|` Steps, some row can
    still give up a Step without falling below the floor.
   */
  lemma {:induction false} EligibleRow(s: seq<int>)
    requires AboveFloor(s)
    requires Sum(s) > MinimumTotal(|s|)
    ensures exists k :: 0 <= k < |s| && s[k] - Step >= Floor
  {
    if s[0] == Floor {
      EligibleRow(s[1..]);
      var k :| 0 <= k < |s[1..]| && s[1..][k] - Step >= Floor;
      assert s[k + 1] - Step >= Floor;
    }
  }

  /** A series above the floor whose total is exactly `|s|` Steps holds only floor rows. */
  lemma AllAtFloor(s: seq<int>)
    requires AboveFloor(s)
    requires Sum(s) == MinimumTotal(|s|)
    ensures forall k :: 0 <= k < |s| ==> s[k] == Floor
  {
    FloorSlack(s);
  }

  /** A series holding only floor rows totals exactly `|s|` Steps: it has no slack left. */
  lemma {:induction false} FloorSeriesHasNoSlack(s: seq<int>)
    requires forall k :: 0 <= k < |s| ==> s[k] == Floor
    ensures Sum(s) == MinimumTotal(|s|)
  {
    if |s| > 0 {
      FloorSeriesHasNoSlack(s[1..]);
    }
  }
}
