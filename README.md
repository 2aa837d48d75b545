# Economic-analysis calculators in Dafny

This project models the calculators behind an economic-analysis web back end, with proofs:

- the **greedy deadline scheduler** (`greedy_schedule`). It sorts tasks by deadline with a stable sort, then walks them along one clock that starts at 0. It places each task back to back at the clock, or skips it when it would miss its deadline.
- the **resource spreader** (`resource_smoothing`). Each task gets `min(workload, total_resources / total_time)` per slot and `int(workload / allocation)` slots. Tasks keep their input order.
- the **finance calculators**: net present value, return on investment, and payback period.
- the **estimation calculators**: the COCOMO mode check, function-point counting, and the expert-judgment mean.
- the **standalone NPV service**. It computes the same sum as the finance calculator.

One Dafny module per source file:

- `SchedulingCalculator` (scheduling_calculator.dfy)
- `FinanceCalculator` (finance_calculator.dfy)
- `EstimationCalculator` (estimation_calculator.dfy)
- `NpvService` (npv.dfy)

Three small shared modules support them:

- `Results`: the result type and the exceptions the code raises.
- `RealSums`: Python's `sum` and integer powers.
- `Discounting`: the discounted sum `Σ cf_t / (1 + r) ** t`, plus an independent Horner-form reference for it.

How the source is modelled:

- Python floats are exact `real`s.
- Python `int` values are unbounded `int`s.
- An exception is an `Err` value of `Results.Result`. `greedy_schedule` and `resource_smoothing` append entries inside their loop and return the list after it, so an exception leaves no partial output. `calculate_payback` returns from inside its loop, and its model does the same.
- The scheduler and the payback search loop over their input and update a running variable, so they are methods with loops. Each method is proved against a specification predicate.
- The formula calculators are functions with contracts.

The two calculators in `backend/services/scheduling_calculator.py` use no priorities, earliest-start windows, flexibility windows or capacity ceiling:

- Its tasks carry only `name`, `duration` and `deadline`.
- Its resource tasks carry only `name` and `workload`.
- The scheduler packs tasks back to back along one clock.
- The spreader uses the plain average share.

## Model

| member | source | states |
|---|---|---|
| `SchedulingCalculator.SortByDeadline` | backend/services/scheduling_calculator.py:5 | The sorted list is ordered by deadline. Each group of equal deadlines keeps its input order. The list is a permutation of the input. It equals the insertion-sort specification. |
| `SchedulingCalculator.InsertionSortIsStableSort` | backend/services/scheduling_calculator.py:5 | The insertion-sort specification is a stable sort by deadline and a permutation of its input. |
| `SchedulingCalculator.StableSortUnique` | backend/services/scheduling_calculator.py:5 | Any two orderings that are both stably sorted by deadline are equal. So stability fully determines the order `sorted` produces. |
| `SchedulingCalculator.GreedySchedule` | backend/services/scheduling_calculator.py:1-27 | There is exactly one entry per input task. The entries follow the stably sorted tasks. Each entry is the placement of its task at the clock left by the earlier entries. |
| `SchedulingCalculator.PackingEntries` | backend/services/scheduling_calculator.py:10-25 | An entry carries its task's name. A task is scheduled if and only if clock + duration <= deadline. A scheduled task starts at the clock, ends at start + duration, and ends by its deadline. |
| `SchedulingCalculator.ClockStep` | backend/services/scheduling_calculator.py:18-25 | The clock moves only at a scheduled entry, to that entry's end. A skipped task leaves it where it was. |
| `SchedulingCalculator.LastEndIsLastScheduled` | backend/services/scheduling_calculator.py:7-18 | The clock equals the end of the last scheduled entry, or 0 when none has been scheduled. |
| `SchedulingCalculator.PackingContiguous` | backend/services/scheduling_calculator.py:7-18 | The first scheduled task starts at 0. Each later one starts exactly where the previous scheduled one ended. |
| `SchedulingCalculator.ClockMonotone` | backend/services/scheduling_calculator.py:7-18 | With non-negative durations, the clock is never negative and never moves backwards. |
| `SchedulingCalculator.PackingDisjoint` | backend/services/scheduling_calculator.py:7-18 | With non-negative durations, scheduled intervals are pairwise non-overlapping, in list order, and start at or after 0. |
| `SchedulingCalculator.PackingUnique` | backend/services/scheduling_calculator.py:9-25 | A task order has only one greedy packing, so the scheduler is deterministic. |
| `SchedulingCalculator.ScheduleCoversEveryTask` | backend/services/scheduling_calculator.py:5-27 | The schedule's names are the input's names, each as often as in the input. |
| `SchedulingCalculator.ResourceSmoothing` | backend/services/scheduling_calculator.py:29-47 | The call fails with a division by zero exactly when total_time is 0, or when some task's min(workload, share) is 0. Otherwise there is one entry per task, in input order, with the task's name. Each allocation is the smaller of the workload and the average share. Each slot count is int(workload / allocation), truncated toward zero. |
| `SchedulingCalculator.SlotCount` | backend/services/scheduling_calculator.py:39-40 | A positive workload under a positive share fills at least one slot. The slot count is the number of whole allocations the workload holds. A workload no larger than the share takes exactly one slot. |
| `SchedulingCalculator.NegativeShareSlots` | backend/services/scheduling_calculator.py:36-40 | With a negative share, a positive workload gets the share as its allocation and a slot count of at most 0. |
| `SchedulingCalculator.Truncate` | backend/services/scheduling_calculator.py:40 | `int()` on a real truncates toward zero: the result is the whole part, for either sign. |
| `FinanceCalculator.CalculateNpv` | backend/services/finance_calculator.py:4-5 | The result is a division by zero exactly when 1 + rate = 0 and there are at least two flows. Otherwise it is the discounted sum. It is 0 for no flows, and the plain sum at a zero rate. |
| `FinanceCalculator.CalculateRoi` | backend/services/finance_calculator.py:7-10 | A zero cost is an error, and only a zero cost. Otherwise the cost grown by the result percent equals the gain, and the result is 0 exactly when gain = cost. |
| `FinanceCalculator.CalculatePayback` | backend/services/finance_calculator.py:18-24 | The result lies in -1 .. len-1. It is the least index whose running total is >= 0. It is -1 when every running total is negative, including for an empty list. |
| `FinanceCalculator.PaybackPeriodUnique` | backend/services/finance_calculator.py:18-24 | The payback specification has only one solution for a given list of flows. |
| `FinanceCalculator.PaybackIgnoresLaterFlows` | backend/services/finance_calculator.py:19-23 | Appending flows after a payback index does not change it. |
| `Discounting.PresentValueEmpty` | backend/services/finance_calculator.py:5 | No flows are worth 0 at any rate. |
| `Discounting.PresentValueFirstFlow` | backend/services/finance_calculator.py:5 | The flow at t = 0 enters the sum undiscounted. |
| `Discounting.PresentValueSingle` | backend/services/npv.py:6 | A single flow is worth itself at any rate, including -1. |
| `Discounting.PresentValueAtZeroRate` | backend/services/npv.py:6 | At a zero rate the present value is the plain sum of the flows. |
| `Discounting.PresentValueIsHorner` | backend/services/npv.py:6 | The generator sum equals Horner's evaluation cf_0 + (cf_1 + …)/(1 + r). |
| `Discounting.SumDivided` | backend/services/npv.py:6 | Dividing every term by a non-zero constant divides the sum by it. |
| `NpvService.CalculateNpv` | backend/services/npv.py:1-7 | The result is a division by zero exactly when rate = -1 and there are at least two flows. Otherwise it is the discounted sum, equal to the Horner form when 1 + rate ≠ 0. A single flow yields itself. |
| `NpvService.AgreesWithFinanceCalculator` | backend/services/npv.py:6 | On every input, errors included, the standalone NPV service agrees with the finance calculator (backend/services/finance_calculator.py:5). |
| `EstimationCalculator.CocomoParameters` | backend/services/estimation_calculator.py:1-10 | Only 'organic', 'semi-detached' and 'embedded' are accepted, each with its (a, b) coefficients. Any other mode is an InvalidMode error that names the mode. |
| `EstimationCalculator.DefaultModeAccepted` | backend/services/estimation_calculator.py:1 | Called without a mode, the check uses the default 'organic' and accepts it with its coefficients. |
| `EstimationCalculator.UnhyphenatedSpellingRejected` | backend/services/estimation_calculator.py:2-8 | The spelling 'semidetached' used by the Flask service (backend/app/services/cocomo.py:4) is rejected here. |
| `EstimationCalculator.CalculateFp` | backend/services/estimation_calculator.py:14-26 | function_points = 3·EI + 4·EO + 3·EQ + 7·ILF + 5·EIF, with missing keys counted as 0. The effort is function_points × effort per point, which defaults to 20.0. |
| `EstimationCalculator.DefaultEffort` | backend/services/estimation_calculator.py:14 | Without an explicit factor, the effort is 20 hours per function point. |
| `EstimationCalculator.WeightedCountOnlyReadsKeys` | backend/services/estimation_calculator.py:22 | The weighted count depends only on the counts of the weighted keys. |
| `EstimationCalculator.WeightedCountMonotone` | backend/services/estimation_calculator.py:22 | With non-negative weights, raising any count never lowers the weighted count. |
| `EstimationCalculator.FunctionPointsIgnoreOtherKeys` | backend/services/estimation_calculator.py:22 | Keys outside the five weights do not change the result. |
| `EstimationCalculator.FunctionPointsOfNothing` | backend/services/estimation_calculator.py:22 | Empty inputs give 0 function points and 0 effort. |
| `EstimationCalculator.FunctionPointsMonotone` | backend/services/estimation_calculator.py:22 | With non-negative counts, the function points are non-negative and non-decreasing in each count. |
| `EstimationCalculator.CalculateExpertJudgment` | backend/services/estimation_calculator.py:28-31 | An empty list is an error, and only an empty list. Otherwise the result times the number of estimates is their sum. |
| `EstimationCalculator.MeanBetweenExtremes` | backend/services/estimation_calculator.py:31 | The mean lies between the least and the greatest estimate. |

## Left out

- `round(x, 2)` is not modelled. It is applied to the NPV, the ROI, the IRR, the COCOMO effort, `estimated_effort_hours`, the expert mean and `allocated_per_slot`; the payback index and `function_points` are returned unrounded. It is binary-float decimal rounding, so all values are stated unrounded, as exact reals.
- Floating-point effects are not modelled: overflow, underflow of `(1 + r) ** t`, and inexact division. Floats are exact reals.
- `calculate_irr` delegates to `numpy_financial.irr`, a foreign numerical routine.
- The COCOMO effort `a * loc ** b` is not modelled, because it needs a fractional real exponent. Only the mode check and the coefficient table are modelled. The Flask copy in backend/app/services/cocomo.py is not part of this model.
- The Monte Carlo and sensitivity analyses in backend/services/risk_analysis.py are left out. They depend on numpy random sampling and float statistics.
- The same file's `perform_decision_tree` (backend/services/risk_analysis.py:71-76, a plain expected-value sum) and `calculate_npv_with_context` (backend/services/risk_analysis.py:17-24, another copy of the NPV sum with defaulted arguments) are left out. They lie outside the four calculator files this project models.
- The HTTP routers, the request models and the Flask application are left out. They only parse requests and serialize responses. The request models shaped the Dafny records.
- `calculate_delphi_method` and `calculate_regression_model` are imported at backend/api/estimation.py:3-6, but backend/services/estimation_calculator.py does not define them.
- `SlotCount`'s "at least one slot" holds only for a positive average share. This is what the code does, not a weakened contract: with a negative `total_resources` the code gives non-positive slot counts, as `NegativeShareSlots` shows.
