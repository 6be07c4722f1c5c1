# Gross-mass adjustment, modelled in Dafny

GrossMassAdjust rescales the `GrossMassKg` column of a shipping manifest so
that the rows add up to a total gross mass typed in by the user. The tool
spreads the difference evenly over every row in whole Steps of 0.001 kg. It
never lets a row fall below 0.001 kg. It then hands out the last few Steps one
at a time, row by row, from the first row on.

This project models that redistribution (`adjust_grossmass` in `main.py`) as
exact integer arithmetic. Every mass is a count of milli-kilograms, so 1 is
both the Step and the floor. The model has four modules:

- `MassSeries` (`mass_series.dfy`): the Step and floor constants, the total
  `Sum`, and lemmas on how much slack a series has above the floor.
- `Baseline` (`baseline.dfy`): division truncating toward zero, the
  per-row baseline shift, and the clamp to the floor.
- `Distributor` (`distributor.dfy`): one turn of the cyclic walk (`Visit`),
  the walk run for a given number of turns (`Iterate`), and the walk as a
  `while` loop (`RunWalk`, wrapped by `Distribute`). The loop is tied to
  `Iterate` by a ghost invariant. Its termination argument uses the Steps
  still to place, then the cyclic distance to a row that can still give up
  a Step.
- `Adjuster` (`adjuster.dfy`): the pre-check, the whole adjustment
  `Adjust`, the post-check verdict, and worked examples: three rows of 10 kg
  taken to 30.004, 30.003 and 0.003 kg; a target too small for three rows;
  a decrease that has to pass over rows at the floor; and a decrease whose
  last Step comes off the first row.

Inputs and outputs are in milli-kilograms: `Adjust([10000, 10000, 10000], 30004)`
stands for adjusting three rows of 10 kg to a total of 30.004 kg.

## Model

| member | source | states |
|---|---|---|
| `Baseline.TruncDiv` | main.py:215-216 | The baseline quotient rounds toward zero: times `n` it never passes the difference, never has the opposite sign, and is within `n` of it. |
| `Baseline.BaselineSteps` | main.py:195-216 | The per-row baseline is the difference `target - total` shared over the `n` rows and truncated toward zero: `n` times it never passes the difference, never has the opposite sign, and is within `n` of it. |
| `Baseline.ApplyBaseline` | main.py:218-224 | Length is kept and every row ends at or above the floor. A row differs from `v + baseline` exactly when `v + baseline` is below the floor, and then it is raised to exactly the floor. |
| `Baseline.BaselineRemainderSmall` | main.py:214-229 | When no row is clamped, the remainder left for the distributor is below `n` Steps in magnitude and on the same side of zero as the original difference. |
| `Baseline.BaselineOfBalancedSeries` | main.py:195-224 | With a target equal to the current total, the baseline is zero and a series already above the floor passes the baseline stage unchanged. |
| `MassSeries.EligibleRow` | main.py:236-241 | A series above the floor whose total exceeds `n` Steps has a row that can give up a Step without falling below the floor. |
| `MassSeries.AllAtFloor` | main.py:205-212 | A series above the floor that totals exactly the minimum `n` Steps has every row at the floor. |
| `Distributor.Visit` | main.py:238-244 | One turn visits row `idx % n`. Going down from a row at the floor or below, it skips the row and uses no Step. Otherwise it moves only that row by one Step in the direction of the sign, uses one Step and moves the total by the sign. It never breaks the floor. |
| `Distributor.Iterate` | main.py:236-244 | The loop run for at most `k` turns, stopping once no Step is left. Length and floor are kept, and the counter advances once per turn taken. It takes all `k` turns unless the Steps run out first. |
| `Distributor.IterateMovesTotal` | main.py:242-243 | Over any number of turns, the total moves by exactly the Steps used up, in the direction of the sign. |
| `Distributor.WalkStuckAtFloor` | main.py:231-244 | When Steps must be removed and every row sits at the floor, no number of turns uses a Step or changes a row: the loop has no exit of its own. |
| `Distributor.VisitsClosedForm` | main.py:235-238 | Counting turn by turn, the first `m` turns of the walk from row 0 visit every row `m / n` times, and the rows below `m % n` once more. |
| `Distributor.LowerIsEven` | main.py:236-244 | After a lowering walk, any row still above the floor gave up at most one Step fewer than any other row. |
| `Distributor.RunWalk` | main.py:231-244 | Given rows above the floor, a non-zero leftover and a target of at least `n` Steps, the loop terminates with no Step left. Its end state is exactly `Iterate` after that many turns. The result keeps length and floor and totals the target. Raising, each row gained one Step per visit, over exactly `leftover` turns. Lowering, each row gave up one Step per visit unless it was at the floor. |
| `Distributor.Distribute` | main.py:226-244 | Given rows above the floor and a target of at least `n` Steps, some number of turns of the walk uses up every Step. The result keeps the length and the floor and totals exactly the target. Added Steps are shared round-robin from row 0: row `i` gains `k / n`, plus one more when `i < k % n`. Removed Steps are taken round-robin from row 0 too: after some `m` turns, each row is `max(floor, value - visits)`. That makes the removal even, and rows only go down. A zero remainder changes nothing. |
| `Adjuster.Precheck` | main.py:198-212 | An empty series is refused with NoRowsFound. A target below `n` Steps is refused with TargetTooSmall carrying the minimum `n` Steps. Every other input passes. |
| `Adjuster.Adjust` | main.py:195-252 | The refusals of the pre-check, and success exactly when they do not apply. On success: same length, floor kept, total equal to the target, post-check mismatch never raised. Every row ends at the floor exactly when the target is the minimum `n` Steps. The remainder after the baseline is added or removed round-robin from row 0; removal passes over rows at the floor and is even. A floor-respecting series already on target comes back unchanged. |
| `Adjuster.UnevenRemainderExample` | main.py:215-244 | Three rows of 10 kg with target 30.004 kg become 10.002, 10.001, 10.001 kg. |
| `Adjuster.EvenBaselineExample` | main.py:215-231 | Three rows of 10 kg with target 30.003 kg become 10.001 kg each, with no remainder. |
| `Adjuster.MinimumBoundaryExample` | main.py:205-244 | Three rows of 10 kg with target 0.003 kg all end at the 0.001 kg floor. |
| `Adjuster.TooSmallExample` | main.py:205-212 | Three rows with target 0.002 kg are refused, reporting a minimum of 0.003 kg. |
| `Adjuster.DecrementSkipExample` | main.py:218-244 | Rows 0.001, 0.001 and 10 kg with target 5 kg become 0.001, 0.001 and 4.998 kg: the floor rows are skipped and every Step comes off the last row. |
| `Adjuster.DecrementRoundRobinExample` | main.py:215-244 | Rows of 0.005, 0.001 and 0.009 kg with target 0.012 kg become 0.003, 0.001 and 0.008 kg. The baseline takes one Step from each row and lifts the middle row back to the floor; the last Step comes off row 0. |

## Left out

- The Qt window, file dialogs, message boxes and status label (main.py:27-132, 259-283): user interface only.
- Loading the workbook, finding the `GrossMassKg` header column, skipping blank cells, parsing cells and the typed target with `float()`, writing back and saving (main.py:139-193, 254-258, 261-283): spreadsheet I/O. The model takes the dense series of values and the target, both already in milli-kilograms. The write-back at main.py:255-256 goes to consecutive rows starting at row 2, so it does not skip the blank rows that reading skipped; that is an I/O matter outside this model.
- Floating-point arithmetic and `round(..., 3)` (main.py:186, 195-196, 215-216, 220, 227-229, 242, 247): the model counts exact milli-kilograms instead. Its baseline is the exact quotient of the difference by `n`, truncated toward zero. The source truncates a double quotient, which can fall just below a whole number and then gives one Step less per row. The distributor makes up those Steps one at a time, so with a clamped row the source's result can differ from the model's. Float drift is the only way the mismatch warning at main.py:247-252 could fire, so the model's post-check never reports a mismatch. For the same reason `int(round(leftover / step))` at main.py:229 is the identity on the exact leftover.
- Adjuster.Adjust: the pre-check compares the raw float target with `0.001 * n` (main.py:205-206), while the model's target is already a whole number of milli-kilograms.
- `resource_path` and loading the stylesheet in `__main__` (main.py:285-299): environment and file access only.
- The distributor loop at main.py:236 has no guard against a full cycle of skipped rows. The model keeps it unguarded, as the code is. `WalkStuckAtFloor` shows the loop would spin when every row is at the floor. `RunWalk` shows the pre-check `target >= n` rules that state out, so the loop always ends.
