# Heater temperature model and sheet parsing, in Dafny

This project models the verifiable core of a small heater-control
repository. The repository drives electrical heating elements ("resistencias")
from a spreadsheet. Three pieces of logic are modelled:

- **The thermal update** (`temp.py`, module `Thermal` in `thermal.dfy`).
  Each second the temperature moves towards a target. The target is `T_max`
  while the heater is on and `T_ambient` while it is off. The step closes the
  fraction `alpha` of the gap. The update is a pure function here. Lemmas cover
  target selection, the fixed point, the `alpha = 0` and `alpha = 1` extremes,
  staying between the old value and the target, and gap contraction. On top of
  the update, `Thermal.Trajectory` runs it once per second over a sequence of
  on/off flags. It is a proof device built on line 20, not code of the
  repository. Lemmas about it cover monotone bounded heating and cooling,
  staying within `[T_ambient, T_max]`, the closed form `(1 - alpha)^n` of the
  gap, and splitting a run into two runs.
- **The per-heater readings** (`get_vars.py`, module `Readings` in
  `readings.dfy`). This is the nested loop that turns the measurement sheet
  into six lists, one per heater. It skips the header row and the first
  column, drops empty cells, and appends every other cell to the list of its
  column. The outer loop is a method proved against the specification
  function `Readings.Collected`. The inner loop over one row's cells is a
  method of its own, called by the outer one. The follow-up loop that only
  passes on non-empty lists is a further method.
- **The schedule** (`main.py`, module `Schedule` in `schedule.dfy`). This is
  the pass with the latch flag `seq_start`. Rows are ignored until the first
  row whose first cell is `"Secuencia"`. That row and every later row become
  six booleans, where a non-empty cell means "on". The loop is a method proved
  against the specification function `Schedule.Schedule`.

The rows of both sheets are inputs of type `seq<seq<string>>`. Temperatures
and `alpha` are Dafny `real`s.

Two preconditions come from the points where the scripts would fail:

- `Readings.FitsReadings`: `get_vars.py` indexes `readings[ii-1]` only for a
  non-empty cell, so it fails exactly when a data row has a non-empty cell at
  index 7 or beyond. Empty cells beyond column 6 are harmless, so the model
  does not require rows to have at most 7 cells.
- `Schedule.Readable`: `main.py` reads `r[0]` of every row. An empty row, as
  the CSV reader yields for a blank line, fails. From the marker row on,
  `main.py` also reads cells 0 to 5, so those rows need at least six cells.

## Model

| member | source | states |
|---|---|---|
| `Thermal.UpdateTemperature` | temp.py:10-20 | the new gap to the target is the old gap times `1 - alpha` |
| `Thermal.TargetIsSelected` | temp.py:19 | the target is `T_max` when the heater is on and `T_ambient` when it is off |
| `Thermal.FixedPoint` | temp.py:19-20 | a temperature equal to the selected target is left unchanged, for any `alpha` |
| `Thermal.ZeroAlphaKeeps` | temp.py:20 | with `alpha = 0` the temperature does not move, whatever the target |
| `Thermal.UnitAlphaReaches` | temp.py:20 | with `alpha = 1` the result is exactly the selected target |
| `Thermal.StepBetween` | temp.py:20 | for `0 <= alpha <= 1` the result lies between the old temperature and the target, and is no farther from the target than before |
| `Thermal.Trajectory` | temp.py:19-20 | a run over `n` flags has `n + 1` temperatures and starts at the seed |
| `Thermal.TrajectoryStep` | temp.py:19-20 | each temperature of a run is the update of the previous one under that second's flag |
| `Thermal.TrajectoryAppend` | temp.py:19-20 | running flags `a + b` equals running `a`, then `b` from where `a` ended |
| `Thermal.HeatingMonotoneBounded` | temp.py:19-20 | with the heater always on, from at most `T_max` and `0 <= alpha <= 1`, the temperatures never decrease and never exceed `T_max` |
| `Thermal.CoolingMonotoneBounded` | temp.py:19-20 | with the heater always off, from at least `T_ambient` and `0 <= alpha <= 1`, the temperatures never increase and never fall below `T_ambient` |
| `Thermal.StaysInRange` | temp.py:19-20 | from a seed in `[T_ambient, T_max]` and `0 <= alpha <= 1`, every temperature of any run stays in that interval |
| `Thermal.HeatingClosedForm` | temp.py:19-20 | after `n` seconds on, the gap to `T_max` is `(1 - alpha)^n` times the initial gap |
| `Thermal.CoolingClosedForm` | temp.py:19-20 | after `n` seconds off, the gap to `T_ambient` is `(1 - alpha)^n` times the initial gap |
| `Readings.ColumnCells` | get_vars.py:17-20 | a column's collected cells are all non-empty and are no more than the rows they come from |
| `Readings.Collected` | get_vars.py:11-20 | the script always holds exactly six lists, one per heater column; their contents are stated by `Readings.ReadingsMembership` and `Readings.ColumnAppend` |
| `Readings.CollectReadings` | get_vars.py:11-20 | the nested append loop leaves exactly the six lists of `Readings.Collected`: list `c` holds the non-empty cells of column `c + 1` of rows 1 onward, in row order |
| `Readings.AppendRowCells` | get_vars.py:17-20 | the inner loop over one data row appends to list `c` exactly that row's cell `c + 1` when it is present and non-empty, and nothing else |
| `Readings.SelectNonEmpty` | get_vars.py:24-26 | exactly the indices of the non-empty lists are passed on, each once, in increasing order |
| `Readings.NoDataNoReadings` | get_vars.py:11-16 | with no row after the header, all six lists stay empty |
| `Readings.ReadingsShape` | get_vars.py:11-20 | there are always six lists, each no longer than the number of rows after the header, holding only non-empty strings |
| `Readings.ColumnAppend` | get_vars.py:15-20 | the cells collected from rows `a + b` are those from `a` followed by those from `b`, so row order is kept |
| `Readings.ColumnMembership` | get_vars.py:17-20 | a value is in a column's cells if and only if it is non-empty and some row has it in that column |
| `Readings.ReadingsMembership` | get_vars.py:15-20 | a value is in list `c` if and only if it is non-empty and sits in column `c + 1` of some row other than the header |
| `Readings.HeaderIgnored` | get_vars.py:15-16 | replacing the header row leaves all six lists unchanged |
| `Readings.FirstColumnIgnored` | get_vars.py:17-18 | changing cell 0 of any rows leaves every collected column unchanged |
| `Schedule.MarkerIndex` | main.py:34-37 | the index found is the first row whose first cell is `"Secuencia"`, or the row count when there is none |
| `Schedule.Flags` | main.py:39-44 | a schedule row has six entries, and heater `c` is on exactly when cell `c` is non-empty |
| `Schedule.Schedule` | main.py:34-45 | the schedule has one six-boolean entry per row from the first marker on |
| `Schedule.ExtractSchedule` | main.py:28-45 | the latched loop with its inner append loop produces exactly `Schedule.Schedule` of the rows |
| `Schedule.ScheduleCells` | main.py:39-45 | the output length is the row count minus the first marker's index; entry `j` has six booleans, and heater `c` is on if and only if cell `c` of row `marker + j` is non-empty |
| `Schedule.NoMarkerNoSchedule` | main.py:34-38 | without a `"Secuencia"` row nothing is emitted |
| `Schedule.FirstEmittedIsOn` | main.py:35-44 | when a marker exists, the first emitted entry has heater 0 on, because `"Secuencia"` is non-empty |
| `Schedule.LatchNeverResets` | main.py:35-38 | once the rows read so far hold a marker, every later row is emitted after the earlier output, whatever its first cell |
| `Schedule.MarkerPrefix` | main.py:34-37 | rows appended after a marker do not move the first marker |
| `Schedule.IgnoredBeforeMarker` | main.py:34-38 | rows before the first marker contribute nothing to the output |

## Left out

- `estimate_alpha_and_Tmax` (temp.py:26-77): a nonlinear least-squares fit by an external solver, with an exponential model and the conversion `alpha = 1 - exp(-k)`. It has no contract that can be stated over exact reals.
- helpers.py: the HTTP download with the local-file cache and the CSV reader wrapper. Their output, the list of rows, is an input of the model.
- The top-level fetch calls (get_vars.py:9, main.py:10-26), the `float()` parsing of readings (get_vars.py:32), the call into the fit (get_vars.py:35-40) and all printing.
- Floating point: temperatures and `alpha` are exact reals, so rounding in the source's doubles is not modelled.
- Thermal.UpdateTemperature: temp.py uses one `alpha` for heating and cooling; separate coefficients would be the same function called with a different `alpha` per flag.
- Readings.CollectReadings: a data row with a non-empty cell beyond column 6 makes the script fail with an index error. The model excludes such input by its precondition instead of modelling the failure.
- Schedule.ExtractSchedule: an empty row, or a row from the marker on with fewer than six cells, makes the script fail with an index error. The model excludes such input by its precondition instead of modelling the failure.
