# Annualized returns tool — a Dafny model

This project models the computing core of a small command-line tool. The tool replays an investment over
every rolling window of a table of historic yearly returns. For each window it reports the geometric-mean
annualized return and the value the principal reaches. Yearly contributions and withdrawals can be scheduled,
and the tool can compute one benchmark scenario at a flat rate.

The model has four modules, one per part of `ar.py`:

- `Failures` (`failures.dfy`) holds the errors the program raises, as values: a missing year, an empty
  table, annualizing an empty list, and the logarithm of a non-positive growth factor. It also holds the
  `Result` and `Option` wrappers.
- `HistoricData` (`historic_data.dfy`) models the year-to-return table as `map<int, real>`. It has a
  single-year lookup, the inclusive range query (a loop, proved against a recursive specification), and the
  first and last year.
- `InterestCalculator` (`interest_calculator.dfy`) holds the two calculations.
  - The investment fold runs the three lists in lock-step for as many years as the shortest list has. Each
    year it withdraws, then grows the balance, then adds the contribution.
  - The annualized return is computed with the natural logarithm and exponential passed in as function
    parameters. Its error cases are modelled exactly. Its meaning is proved under the hypothesis that the two
    parameters behave as `ln` and `exp`.
- `ScenarioRunner` (`scenario_runner.dfy`) holds the result records, the parsed arguments, the stop-year
  default, the contribution and withdrawal schedules, the benchmark, and the rolling-window loop.

Each loop of the program is a Dafny `method` with a `while` or `for` loop. Its `ensures` ties the result to a
specification function. The properties are proved as lemmas about those functions. Amounts and returns are
exact `real`s.

Behaviour of the program that is easy to misread:

- Lists of unequal length are not an error. The fold stops at the shortest list, because the program zips
  the three lists. Every window passes `duration + 1` returns with schedules of `duration` entries, so a
  window's last return never affects its end value (`WindowIgnoresLastReturn`).
- The window loop does not check the duration and does not fail when no window fits. It then returns an
  empty list. A duration of zero or less yields windows with one return or with none. A window with no
  returns fails like any empty annualization.
- The benchmark uses exactly `duration` copies of the rate, not `duration + 1`.
- A table spanning 2000–2005 with duration 3 yields three windows: 2000, 2001 and 2002. The loop condition
  `start + duration <= end` admits 2002, since 2002 + 3 = 2005.
- When a return is -100 or less, the annualization fails with the logarithm error. That error is raised
  inside the loop, so it comes before the division by zero on an empty list. An empty list has no such
  return, so the two errors never compete.

## Model

| member | source | states |
|---|---|---|
| HistoricData.ReturnFor | ar.py:20-21 | a lookup succeeds exactly when the year is in the table, giving its return; otherwise it fails with that year as missing |
| HistoricData.YearRange | ar.py:23-27 | succeeds exactly when every year of `start..end` is in the table; the list then has `end - start + 1` entries (none when `end < start`) and entry `i` is the return of year `start + i`; on failure the reported year is the first missing one of the range |
| HistoricData.GetReturnsFor | ar.py:23-27 | the append loop computes exactly `YearRange`, including which year it fails on |
| HistoricData.StartYear | ar.py:29-30 | on a non-empty table, a year of the table no greater than any other; on an empty one, the empty-table error |
| HistoricData.EndYear | ar.py:32-33 | on a non-empty table, a year of the table no smaller than any other; on an empty one, the empty-table error |
| HistoricData.FullSpan | ar.py:23-33 | querying a gap-free table from its first to its last year succeeds with `last - first + 1` returns |
| InterestCalculator.Periods | ar.py:51 | the number of years the three lists run is no more than any list's length and equals one of them: the length of the shortest |
| InterestCalculator.CalculateInvestmentValue | ar.py:49-56 | the loop computes the left fold `InvestmentValue` over the shared years |
| InterestCalculator.TruncatedLists | ar.py:51 | the value equals that of the three lists cut to the shortest length: trailing entries are never read |
| InterestCalculator.NoPeriods | ar.py:49-56 | with an empty list among the three, the principal is returned unchanged |
| InterestCalculator.TrailingReturnsIgnored | ar.py:51 | two return lists that agree on the years the schedules cover give the same value |
| InterestCalculator.AppendYear | ar.py:51-54 | appending one year to all three lists applies one more withdraw, grow, contribute step to the previous value |
| InterestCalculator.WithdrawalBeforeGrowth | ar.py:52-54 | a one-year run is `(principal - w) * (1 + r/100) + c`, and differs from growing before withdrawing whenever `r` and `w` are both non-zero |
| InterestCalculator.ZeroReturns | ar.py:50-56 | with zero returns over the years run, the value is principal plus the contributions minus the withdrawals of those years |
| InterestCalculator.NothingHappens | ar.py:50-56 | zero returns and zero cash flows leave the principal unchanged, for any number of years |
| InterestCalculator.NoCashFlows | ar.py:50-56 | without cash flows the value is the principal times the product of the yearly growth factors |
| InterestCalculator.MonotoneInPrincipal | ar.py:49-56 | when no return is below -100, a larger principal never ends with a smaller value |
| InterestCalculator.AnnualizedReturn | ar.py:38-46 | succeeds exactly on a non-empty list whose returns are all above -100; fails with the logarithm error exactly when some return is -100 or less, and with the empty-list error exactly when the list is empty |
| InterestCalculator.CalculateAnnualizedReturn | ar.py:38-46 | the loop (sum of logarithms, divide by the count, exponentiate) computes exactly `AnnualizedReturn`, errors included |
| InterestCalculator.ConstantReturns | ar.py:38-46 | annualizing `n >= 1` copies of a return above -100 gives that return back |
| InterestCalculator.AnnualizedReturnCompounds | ar.py:38-46 | the annualized rate, compounded once per year of the list, reproduces the list's total growth |
| InterestCalculator.Repeat | ar.py:126 | `n` copies of the rate, and no copies when `n` is not positive |
| ScenarioRunner.StopOrDuration | ar.py:96-97 | a stop year that is given and non-zero is kept; an absent or zero stop year becomes the duration |
| ScenarioRunner.Schedule | ar.py:108-120 | a schedule has one entry per year `1..duration`, and the entry of year `y` is the amount if `first <= y <= last` and zero otherwise |
| ScenarioRunner.CalculateSchedule | ar.py:109-113 | the append loop builds exactly `Schedule` |
| ScenarioRunner.CalculateContributions | ar.py:108-113 | the contributions are the schedule of `contrib` over `contribStart..contribStop` |
| ScenarioRunner.CalculateWithdrawals | ar.py:115-120 | the withdrawals are the schedule of `withdraw` over `withdrawStart..withdrawStop` |
| ScenarioRunner.DefaultStopPaysEveryYear | ar.py:86-97 | with the default start year and no stop year, the schedule pays the amount in every year of the duration |
| ScenarioRunner.ScheduleTotal | ar.py:108-120 | a schedule sums to the amount times the number of years of `1..duration` inside `first..last` |
| ScenarioRunner.CalculateBenchmark | ar.py:122-132 | no benchmark gives no result; otherwise the result fails exactly when annualizing `duration` copies of the rate fails, with that error, and on success its annualized return is that annualization and its end value is the fold over the same `duration` copies with the given schedules |
| ScenarioRunner.BenchmarkMatchesRate | ar.py:122-132 | with at least one year and a rate above -100, the benchmark succeeds and its annualized return is the rate itself |
| ScenarioRunner.BenchmarkWithoutCashFlows | ar.py:126-131 | without cash flows, the benchmark's end value is the principal compounded at the rate once per year of the duration, so all `duration` copies are used |
| ScenarioRunner.WindowResult | ar.py:140-147 | a window's record spans `start..start + duration`; a missing year it reports lies inside the window |
| ScenarioRunner.CalculateWindow | ar.py:140-147 | one pass of the window loop computes exactly `WindowResult` |
| ScenarioRunner.CalculateAnnualizedReturns | ar.py:134-150 | the method computes `AllWindows`: the empty-table error, or the sweep of windows from the first year while they end by the last |
| ScenarioRunner.CalculateWindowsFrom | ar.py:138-150 | the while loop gathers the windows in order and stops at the first failing one |
| ScenarioRunner.AllWindowsSucceed | ar.py:134-150 | an empty table fails; on a non-empty one the run succeeds exactly when every window from the first year that ends by the last year succeeds |
| ScenarioRunner.AllWindowsInOrder | ar.py:134-150 | a successful run has `max(0, last - first - duration + 1)` records; record `i` starts at `first + i`, ends at `first + i + duration <= last`, and is that window's result |
| ScenarioRunner.AllWindowsFirstFailure | ar.py:138-148 | a failed run reports the error of the earliest failing window, and every earlier window succeeds |
| ScenarioRunner.WindowIgnoresLastReturn | ar.py:140-143 | with schedules of `duration` entries, two tables that agree on a window's first `duration` years give it the same end value |

## Left out

- Loading the table from a CSV file (ar.py:14-18) is file I/O. The table is given as a map, so a duplicate
  year (silently overwritten by the program) and a malformed row are not modelled.
- Argument parsing (ar.py:79-99) is not modelled. Only the stop-year default of lines 96-97 is kept
  (`StopOrDuration`), and `Args` carries the parsed values.
- Printing, sorting by end value and the min/max filter (ar.py:152-170) are presentation and are not
  modelled.
- `Main.__init__`, `Main.run` and the script entry point (ar.py:73-77, 101-106, 173-175) only wire the
  parts together and are not modelled.
- InterestCalculator.AnnualizedReturn: the natural logarithm and exponential are function parameters, so the
  model does not fix the numeric result. Its properties are proved for any pair that behaves as `ln` and
  `exp` (`ExpUndoesLn`, `IsLogExpPair`).
- Floating-point rounding is not modelled: returns and amounts are exact reals, so results agree with the
  program only up to rounding.
- HistoricData.StartYear: the program compares the table's string keys, so `min` and `max` order years
  lexicographically. The model uses numeric order. The two agree when all years have the same number of
  digits, as four-digit years do.
- HistoricData.EndYear: same as StartYear, with `max` in place of `min`.
