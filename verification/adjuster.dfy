/**
  The gross-mass adjustment as one call: the pre-check rejects an empty
  series and an unreachable target, the baseline allocator and the remainder
  distributor bring the total onto the target, and the post-check compares
  the final total with the target.
 */
module Adjuster {
  import opened MassSeries
  import opened Baseline
  import opened Distributor

  /** Why an adjustment was refused. */
  datatype AdjustError =
    | NoRowsFound
      /** The target lies below one Step per row; `minimum` is the smallest reachable total. */
    | TargetTooSmall(minimum: int)

  /** An adjusted series, with the post-check's verdict on its total. */
  datatype Adjustment = Adjustment(values: seq<int>, sumMismatch: bool)

  datatype Result<+T, +E> = Success(value: T) | Failure(error: E)

  datatype Option<+T> = None | Some(value: T)

  /**
    The checks made before any row is touched. An empty series is refused
    first; otherwise a target below the minimum total is refused and the
    minimum is reported. Every other input passes.
   */
  function Precheck(values: seq<int>, target: int): (r: Option<AdjustError>)
    ensures r == None <==> |values| > 0 && target >= MinimumTotal(|values|)
    ensures |values| == 0 ==> r == Some(NoRowsFound)
    ensures |values| > 0 && target < MinimumTotal(|values|) ==> r == Some(TargetTooSmall(MinimumTotal(|values|)))
  {
    if |values| == 0 then Some(NoRowsFound)
    else if target < MinimumTotal(|values|) then Some(TargetTooSmall(MinimumTotal(|values|)))
    else None
  }

  /**
    Adjusts `values` (in Steps) so that they total `target`. On success the
    series keeps its length, no row is below the floor, the total is exactly
    the target and so the post-check never reports a mismatch. The rows all
    end at the floor exactly when the target is the minimum total. The
    remainder left by the baseline pass is shared round-robin from row 0,
    whether it adds Steps or takes them away; taking them away passes over
    rows at the floor. A floor-respecting series whose total already equals
    the target comes back unchanged.
   */
  method Adjust(values: seq<int>, target: int) returns (r: Result<Adjustment, AdjustError>)
    ensures |values| == 0 ==> r == Failure(NoRowsFound)
    ensures |values| > 0 && target < MinimumTotal(|values|) ==> r == Failure(TargetTooSmall(MinimumTotal(|values|)))
    ensures r.Success? <==> |values| > 0 && target >= MinimumTotal(|values|)
    ensures r.Success? ==> && |r.value.values| == |values|
                           && AboveFloor(r.value.values)
                           && Sum(r.value.values) == target
                           && !r.value.sumMismatch
    ensures r.Success? ==> (target == MinimumTotal(|values|) <==>
                            forall j :: 0 <= j < |values| ==> r.value.values[j] == Floor)
    ensures r.Success? ==>
              var base := ApplyBaseline(values, BaselineSteps(values, target));
              && (Sum(base) <= target ==> RoundRobinRaise(base, target - Sum(base), r.value.values))
              && (Sum(base) >= target ==> exists m: nat :: RoundRobinLower(base, m, r.value.values))
              && (Sum(base) >= target ==> EvenLowering(base, r.value.values))
              && (Sum(base) >= target ==> forall j :: 0 <= j < |values| ==> r.value.values[j] <= base[j])
    ensures |values| > 0 && AboveFloor(values) && target == Sum(values) ==> r == Success(Adjustment(values, false))
  {
    if AboveFloor(values) {
      FloorSlack(values);
    }
    var rejection := Precheck(values, target);
    if rejection.Some? {
      return Failure(rejection.value);
    }
    var base := ApplyBaseline(values, BaselineSteps(values, target));
    var adjusted := Distribute(base, target);
    if target == MinimumTotal(|values|) {
      AllAtFloor(adjusted);
    }
    if forall j :: 0 <= j < |values| ==> adjusted[j] == Floor {
      FloorSeriesHasNoSlack(adjusted);
    }
    if AboveFloor(values) && target == Sum(values) {
      BaselineOfBalancedSeries(values);
    }
    r := Success(Adjustment(adjusted, Sum(adjusted) != target));
  }

  /** The total of a three-row series is the sum of its rows. */
  lemma SumOfThree(s: seq<int>)
    requires |s| == 3
    ensures Sum(s) == s[0] + s[1] + s[2]
  {
    assert Sum(s[1..][1..][1..]) == 0;
    assert Sum(s[1..][1..]) == s[2];
    assert Sum(s[1..]) == s[1] + s[2];
  }

  /** Three rows of 10 kg and a target of 30.004 kg: one Step each, and the spare Step to row 0. */
  method UnevenRemainderExample() returns (r: Result<Adjustment, AdjustError>)
    ensures r == Success(Adjustment([10002, 10001, 10001], false))
  {
    r := Adjust([10000, 10000, 10000], 30004);
    SumOfThree([10000, 10000, 10000]);
    assert BaselineSteps([10000, 10000, 10000], 30004) == 1;
    assert ApplyBaseline([10000, 10000, 10000], 1) == [10001, 10001, 10001];
    SumOfThree([10001, 10001, 10001]);
    assert r.value.values == [10002, 10001, 10001];
  }

  /** Three rows of 10 kg and a target of 30.003 kg: the baseline alone meets the target. */
  method EvenBaselineExample() returns (r: Result<Adjustment, AdjustError>)
    ensures r == Success(Adjustment([10001, 10001, 10001], false))
  {
    r := Adjust([10000, 10000, 10000], 30003);
    SumOfThree([10000, 10000, 10000]);
    assert BaselineSteps([10000, 10000, 10000], 30003) == 1;
    assert ApplyBaseline([10000, 10000, 10000], 1) == [10001, 10001, 10001];
    SumOfThree([10001, 10001, 10001]);
    assert r.value.values == [10001, 10001, 10001];
  }

  /** Three rows of 10 kg and a target of 0.003 kg: every row ends at the floor. */
  method MinimumBoundaryExample() returns (r: Result<Adjustment, AdjustError>)
    ensures r == Success(Adjustment([1, 1, 1], false))
  {
    r := Adjust([10000, 10000, 10000], 3);
    assert r.value.values == [1, 1, 1];
  }

  /** Three rows of 10 kg and a target of 0.002 kg: refused, and 0.003 kg is reported as the minimum. */
  method TooSmallExample() returns (r: Result<Adjustment, AdjustError>)
    ensures r == Failure(TargetTooSmall(3))
  {
    r := Adjust([10000, 10000, 10000], 2);
  }

  /**
    Two rows at the floor and one of 10 kg, brought down to 5 kg: the floor
    rows are passed over and every Step is taken from the last row.
   */
  method DecrementSkipExample() returns (r: Result<Adjustment, AdjustError>)
    ensures r == Success(Adjustment([1, 1, 4998], false))
  {
    r := Adjust([1, 1, 10000], 5000);
    SumOfThree([1, 1, 10000]);
    assert BaselineSteps([1, 1, 10000], 5000) == -1667;
    assert ApplyBaseline([1, 1, 10000], -1667) == [1, 1, 8333];
    SumOfThree([1, 1, 8333]);
    var out := r.value.values;
    assert out[0] == 1 && out[1] == 1;
    SumOfThree(out);
    assert out == [1, 1, 4998];
  }

  /**
    Rows of 5, 1 and 9 milli-kilograms brought to 12: the baseline takes one
    Step from each row (the middle row is lifted back to the floor), and the
    one Step still to remove comes off row 0, the first row the walk visits.
   */
  method DecrementRoundRobinExample() returns (r: Result<Adjustment, AdjustError>)
    ensures r == Success(Adjustment([3, 1, 8], false))
  {
    r := Adjust([5, 1, 9], 12);
    SumOfThree([5, 1, 9]);
    assert BaselineSteps([5, 1, 9], 12) == -1;
    var base := ApplyBaseline([5, 1, 9], -1);
    assert base == [4, 1, 8];
    SumOfThree(base);
    var out := r.value.values;
    ghost var m: nat :| RoundRobinLower(base, m, out);
    VisitsClosedForm(0, m, 3);
    VisitsClosedForm(2, m, 3);
    SumOfThree(out);
    assert out == [3, 1, 8];
  }
}
