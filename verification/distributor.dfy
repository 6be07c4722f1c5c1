/**
  The remainder distributor: after the baseline pass, the rows are nudged one
  Step at a time, walking them cyclically from row 0, until the total meets
  the target. When Steps have to be taken away, a row already at the floor is
  passed over without using up a Step.
 */
module Distributor {
  import opened MassSeries

  /** The state of the cyclic walk: the series, the Steps still to place and the visit counter. */
  datatype Walk = Walk(values: seq<int>, steps: nat, idx: nat)

  /** A row may take part in the walk: going down, it must stay at or above the floor. */
  predicate Eligible(values: seq<int>, i: int, sign: int)
    requires 0 <= i < |values|
  {
    !(sign < 0 && values[i] - Step < Floor)
  }

  /**
    One turn of the walk: visits row `idx % n`. An ineligible row is skipped
    and nothing but the counter moves; otherwise that row alone moves one Step
    in the direction of `sign`, one Step is used up and the total moves by
    `sign`. A turn never takes a row below the floor.
   */
  function Visit(w: Walk, sign: int): (r: Walk)
    requires |w.values| > 0 && w.steps > 0
    requires sign == 1 || sign == -1
    ensures |r.values| == |w.values| && r.idx == w.idx + 1
    ensures var i := w.idx % |w.values|;
            if !Eligible(w.values, i, sign) then
              r.values == w.values && r.steps == w.steps
            else
              && r.steps == w.steps - 1
              && r.values[i] == w.values[i] + sign * Step
              && (forall j :: 0 <= j < |w.values| && j != i ==> r.values[j] == w.values[j])
              && Sum(r.values) == Sum(w.values) + sign * Step
    ensures AboveFloor(w.values) ==> AboveFloor(r.values)
  {
    var i := w.idx % |w.values|;
    if !Eligible(w.values, i, sign) then
      w.(idx := w.idx + 1)
    else
      SumUpdate(w.values, i, w.values[i] + sign * Step);
      Walk(w.values[i := w.values[i] + sign * Step], w.steps - 1, w.idx + 1)
  }

  /**
    The walk run for at most `k` turns, stopping early once no Step is left.
    The series keeps its length and its floor, the counter advances once per
    turn taken, and every Step used up moved the total by `sign`.
   */
  function Iterate(w: Walk, sign: int, k: nat): (r: Walk)
    requires |w.values| > 0
    requires sign == 1 || sign == -1
    ensures |r.values| == |w.values|
    ensures w.idx <= r.idx <= w.idx + k && r.steps <= w.steps
    ensures r.steps == 0 || r.idx == w.idx + k
    ensures AboveFloor(w.values) ==> AboveFloor(r.values)
    decreases k
  {
    if k == 0 || w.steps == 0 then w else Iterate(Visit(w, sign), sign, k - 1)
  }

  /** Every Step the walk uses up moves the total by one Step in the direction of `sign`. */
  lemma {:induction false} IterateMovesTotal(w: Walk, sign: int, k: nat)
    requires |w.values| > 0
    requires sign == 1 || sign == -1
    ensures var r := Iterate(w, sign, k);
            Sum(r.values) == Sum(w.values) + sign * (w.steps - r.steps)
    decreases k
  {
    if k > 0 && w.steps > 0 {
      IterateMovesTotal(Visit(w, sign), sign, k - 1);
    }
  }

  /** `w` is where the walk from `start` stands after `w.idx` turns. */
  ghost predicate Reached(start: Walk, sign: int, w: Walk)
    requires |start.values| > 0
    requires sign == 1 || sign == -1
  {
    start.idx == 0 && Iterate(start, sign, w.idx) == w
  }

  /** A walk that has reached `w` with Steps left reaches the next turn's state. */
  lemma ReachedNext(start: Walk, sign: int, w: Walk)
    requires |start.values| > 0 && |w.values| > 0 && w.steps > 0
    requires sign == 1 || sign == -1
    requires Reached(start, sign, w)
    ensures Reached(start, sign, Visit(w, sign))
  {
    IterateOneMore(start, sign, w.idx);
  }

  /** Running one more turn is one more `Visit`, unless the Steps were already used up. */
  lemma {:induction false} IterateOneMore(w: Walk, sign: int, k: nat)
    requires |w.values| > 0
    requires sign == 1 || sign == -1
    ensures Iterate(w, sign, k + 1) ==
              (var v := Iterate(w, sign, k); if v.steps == 0 then v else Visit(v, sign))
    decreases k
  {
    if k > 0 && w.steps > 0 {
      IterateOneMore(Visit(w, sign), sign, k - 1);
    }
  }

  /**
    The hazard the target pre-check guards against: when Steps must be taken
    away and every row already sits at the floor, no number of turns uses up
    a Step or changes a row, so the unguarded walk would never stop.
   */
  lemma {:induction false} WalkStuckAtFloor(w: Walk, k: nat)
    requires |w.values| > 0 && w.steps > 0
    requires forall j :: 0 <= j < |w.values| ==> w.values[j] == Floor
    ensures Iterate(w, -1, k) == w.(idx := w.idx + k)
    decreases k
  {
    if k > 0 {
      var w' := Visit(w, -1);
      assert w' == w.(idx := w.idx + 1);
      WalkStuckAtFloor(w', k - 1);
    }
  }

  /** Cyclic distance from row `i` forward to row `e` among `n` rows. */
  function CyclicDistance(i: int, e: int, n: int): nat
    requires 0 <= i < n && 0 <= e < n
  {
    if i <= e then e - i else e + n - i
  }

  /** Advancing the counter by one moves the row index to the next row, wrapping at `n`. */
  lemma NextRow(a: nat, n: int)
    requires n > 0
    ensures a % n + 1 < n ==> (a + 1) % n == a % n + 1 && (a + 1) / n == a / n
    ensures a % n + 1 == n ==> (a + 1) % n == 0 && (a + 1) / n == a / n + 1
  {
    var q, r := a / n, a % n;
    assert a + 1 == q * n + (r + 1);
    if r + 1 < n {
      DivModUnique(a + 1, n, q, r + 1);
    } else {
      assert a + 1 == (q + 1) * n + 0;
      DivModUnique(a + 1, n, q + 1, 0);
    }
  }

  /** Quotient and remainder of `a` by `n` are the only such pair with `0 <= r < n`. */
  lemma DivModUnique(a: int, n: int, q: int, r: int)
    requires n > 0 && 0 <= r < n && a == q * n + r
    ensures a / n == q && a % n == r
  {
    var q', r' := a / n, a % n;
    assert (q - q') * n == r' - r;
    if q > q' {
      MultipleAtLeast(q - q', n);
    } else if q < q' {
      MultipleAtLeast(q' - q, n);
    }
  }

  /** A positive multiple of `n` is at least `n`. */
  lemma MultipleAtLeast(d: int, n: int)
    requires d >= 1 && n > 0
    ensures d * n >= n
  {
  }

  /** How many of the first `m` turns of the walk land on row `i` of `n`. */
  function Visits(i: int, m: nat, n: int): nat
    requires n > 0
  {
    if m == 0 then 0 else Visits(i, m - 1, n) + (if (m - 1) % n == i then 1 else 0)
  }

  /** The first `m` turns visit every row `m / n` times, and the rows below `m % n` once more. */
  lemma {:induction false} VisitsClosedForm(i: int, m: nat, n: int)
    requires n > 0 && 0 <= i < n
    ensures Visits(i, m, n) == m / n + (if i < m % n then 1 else 0)
  {
    if m > 0 {
      VisitsClosedForm(i, m - 1, n);
      NextRow(m - 1, n);
    }
  }

  /**
    The round-robin share of `k` extra Steps spread over `base` from row 0:
    every row gains `k / n` Steps and the first `k % n` rows one more.
   */
  ghost predicate RoundRobinRaise(base: seq<int>, k: nat, out: seq<int>)
    requires |base| > 0
  {
    && |out| == |base|
    && forall j :: 0 <= j < |base| ==> out[j] == base[j] + k / |base| + (if j < k % |base| then 1 else 0)
  }

  /**
    `out` is what the first `m` turns of a lowering walk leave of `base`: every
    turn takes a Step from the row it visits unless that row is at the floor.
   */
  ghost predicate RoundRobinLower(base: seq<int>, m: nat, out: seq<int>)
    requires |base| > 0
  {
    && |out| == |base|
    && forall j :: 0 <= j < |base| ==> out[j] == Max(Floor, base[j] - Visits(j, m, |base|))
  }

  /** Any row still above the floor gave up at most one Step fewer than any other row. */
  ghost predicate EvenLowering(base: seq<int>, out: seq<int>)
    requires |out| == |base|
  {
    forall i, j :: 0 <= i < |base| && 0 <= j < |base| && out[j] > Floor ==>
      base[i] - out[i] <= base[j] - out[j] + 1
  }

  function Max(a: int, b: int): int
  {
    if a >= b then a else b
  }

  /** The direction the walk moves rows in for a given leftover. */
  function WalkSign(leftover: int): int
  {
    if leftover > 0 then 1 else -1
  }

  /** The walk before its first turn: one Step to place per milli-kilogram of leftover. */
  function StartWalk(values: seq<int>, leftover: int): Walk
  {
    Walk(values, if leftover >= 0 then leftover else -leftover, 0)
  }

  /** Some number of turns of the walk from `values` uses up every Step and leaves `out`. */
  ghost predicate WalkEndsWith(values: seq<int>, target: int, out: seq<int>)
    requires |values| > 0
  {
    var leftover := target - Sum(values);
    exists m: nat :: Iterate(StartWalk(values, leftover), WalkSign(leftover), m) == Walk(out, 0, m)
  }

  /** `out` is `values` after `m` turns of a raising walk: each row gained one Step per visit. */
  ghost predicate RaisedByVisits(values: seq<int>, m: nat, out: seq<int>)
    requires |values| > 0
  {
    && |out| == |values|
    && forall j :: 0 <= j < |values| ==> out[j] == values[j] + Visits(j, m, |values|)
  }

  /** One more turn of a raising walk adds a Step to the row it visits and to no other. */
  lemma RaiseTurn(values: seq<int>, w: Walk)
    requires |values| > 0 && w.steps > 0
    requires RaisedByVisits(values, w.idx, w.values)
    ensures var r := Visit(w, 1); RaisedByVisits(values, r.idx, r.values)
  {
  }

  /** One more turn of a lowering walk keeps every row at the floor or at its Steps given up. */
  lemma LowerTurn(values: seq<int>, w: Walk)
    requires |values| > 0 && w.steps > 0
    requires RoundRobinLower(values, w.idx, w.values)
    ensures var r := Visit(w, -1); RoundRobinLower(values, r.idx, r.values)
  {
  }

  /** Counting the visits of `k` turns gives the round-robin share of `k` Steps. */
  lemma RaiseIsRoundRobin(values: seq<int>, k: nat, out: seq<int>)
    requires |values| > 0
    requires RaisedByVisits(values, k, out)
    ensures RoundRobinRaise(values, k, out)
  {
    forall j | 0 <= j < |values| {
      VisitsClosedForm(j, k, |values|);
    }
  }

  /** A round-robin lowering is even: rows above the floor differ by at most one Step given up. */
  lemma LowerIsEven(values: seq<int>, m: nat, out: seq<int>)
    requires |values| > 0
    requires RoundRobinLower(values, m, out)
    ensures EvenLowering(values, out)
  {
    var n := |values|;
    forall i, j | 0 <= i < n && 0 <= j < n && out[j] > Floor
      ensures values[i] - out[i] <= values[j] - out[j] + 1
    {
      VisitsClosedForm(i, m, n);
      VisitsClosedForm(j, m, n);
    }
  }

  /**
    What holds of the walk from `values` towards `target` after every turn:
    the series keeps its length and floor, the Steps still to place are what
    separates its total from the target, and each row moved once per visit
    (when lowering, unless it was at the floor).
   */
  ghost predicate WalkInvariant(values: seq<int>, target: int, w: Walk)
    requires |values| > 0
  {
    var leftover := target - Sum(values);
    var sign := WalkSign(leftover);
    && |w.values| == |values| && AboveFloor(w.values)
    && Reached(StartWalk(values, leftover), sign, w)
    && (sign > 0 ==> Sum(w.values) + w.steps == target)
    && (sign < 0 ==> Sum(w.values) - w.steps == target)
    && (sign > 0 ==> w.idx + w.steps == leftover)
    && (sign > 0 ==> RaisedByVisits(values, w.idx, w.values))
    && (sign < 0 ==> RoundRobinLower(values, w.idx, w.values))
  }

  /** One turn of the walk keeps its invariant. */
  lemma TurnKeepsInvariant(values: seq<int>, target: int, w: Walk)
    requires |values| > 0 && w.steps > 0
    requires WalkInvariant(values, target, w)
    ensures WalkInvariant(values, target, Visit(w, WalkSign(target - Sum(values))))
  {
    var leftover := target - Sum(values);
    if leftover > 0 {
      RaiseTurnKeepsInvariant(values, target, w);
    } else {
      LowerTurnKeepsInvariant(values, target, w);
    }
  }

  lemma RaiseTurnKeepsInvariant(values: seq<int>, target: int, w: Walk)
    requires |values| > 0 && w.steps > 0 && target > Sum(values)
    requires WalkInvariant(values, target, w)
    ensures WalkInvariant(values, target, Visit(w, 1))
  {
    ReachedNext(StartWalk(values, target - Sum(values)), 1, w);
    RaiseTurn(values, w);
  }

  lemma LowerTurnKeepsInvariant(values: seq<int>, target: int, w: Walk)
    requires |values| > 0 && w.steps > 0 && target < Sum(values)
    requires WalkInvariant(values, target, w)
    ensures WalkInvariant(values, target, Visit(w, -1))
  {
    ReachedNext(StartWalk(values, target - Sum(values)), -1, w);
    LowerTurn(values, w);
  }

  /**
    The cyclic walk itself, for a non-zero leftover. It stops with every Step
    used up, having taken exactly the turns of `Iterate`; the series keeps
    its length and floor and totals the target. Raising, each row gained one
    Step per visit and the walk took exactly `leftover` turns; lowering, each
    row gave up one Step per visit unless it was at the floor.
   */
  method RunWalk(values: seq<int>, target: int) returns (w: Walk)
    requires |values| > 0
    requires AboveFloor(values)
    requires target >= MinimumTotal(|values|)
    requires target != Sum(values)
    ensures w.steps == 0
    ensures var leftover := target - Sum(values); Reached(StartWalk(values, leftover), WalkSign(leftover), w)
    ensures |w.values| == |values| && AboveFloor(w.values) && Sum(w.values) == target
    ensures target > Sum(values) ==> w.idx == target - Sum(values) && RaisedByVisits(values, w.idx, w.values)
    ensures target < Sum(values) ==> RoundRobinLower(values, w.idx, w.values)
  {
    var n := |values|;
    var sign := WalkSign(target - Sum(values));
    w := StartWalk(values, target - Sum(values));
    assert sign > 0 ==> RaisedByVisits(values, 0, values);
    assert sign < 0 ==> RoundRobinLower(values, 0, values);
    assert WalkInvariant(values, target, w);
    ghost var e := 0;
    if sign < 0 {
      EligibleRow(values);
      e :| 0 <= e < n && values[e] - Step >= Floor;
    }
    while w.steps > 0
      invariant WalkInvariant(values, target, w)
      invariant 0 <= e < n
      invariant sign < 0 && w.steps > 0 ==> w.values[e] - Step >= Floor
      decreases w.steps, CyclicDistance(w.idx % n, e, n)
    {
      var before := w;
      TurnKeepsInvariant(values, target, w);
      w := Visit(w, sign);
      NextRow(before.idx, n);
      if sign < 0 && w.steps < before.steps && w.steps > 0 {
        EligibleRow(w.values);
        e :| 0 <= e < n && w.values[e] - Step >= Floor;
      }
    }
  }

  /**
    The distributor. Starting from a series above the floor and a target of
    at least one Step per row, the walk stops, and the series it leaves has
    the same length, stays above the floor and totals exactly the target.
    Extra Steps are shared round-robin from row 0. Steps taken away are taken
    round-robin from row 0 too, passing over rows at the floor, so a row
    still above the floor gave up at most one Step fewer than any other row.
    A series already on target is returned unchanged.
   */
  method Distribute(values: seq<int>, target: int) returns (out: seq<int>)
    requires |values| > 0
    requires AboveFloor(values)
    requires target >= MinimumTotal(|values|)
    ensures |out| == |values| && AboveFloor(out)
    ensures Sum(out) == target
    ensures WalkEndsWith(values, target, out)
    ensures Sum(values) == target ==> out == values
    ensures Sum(values) <= target ==> RoundRobinRaise(values, target - Sum(values), out)
    ensures Sum(values) >= target ==> exists m: nat :: RoundRobinLower(values, m, out)
    ensures Sum(values) >= target ==> EvenLowering(values, out)
    ensures Sum(values) >= target ==> forall j :: 0 <= j < |values| ==> out[j] <= values[j]
  {
    var leftover := target - Sum(values);
    if leftover == 0 {
      out := values;
      assert Iterate(StartWalk(values, leftover), WalkSign(leftover), 0) == Walk(out, 0, 0);
      assert RaisedByVisits(values, 0, out);
      RaiseIsRoundRobin(values, 0, out);
      assert RoundRobinLower(values, 0, out);
      LowerIsEven(values, 0, out);
      return;
    }
    var w := RunWalk(values, target);
    out := w.values;
    assert Iterate(StartWalk(values, leftover), WalkSign(leftover), w.idx) == Walk(out, 0, w.idx);
    if leftover > 0 {
      RaiseIsRoundRobin(values, w.idx, out);
    } else {
      LowerIsEven(values, w.idx, out);
    }
  }
}
