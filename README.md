# AIScheduler in Dafny

This project models `AIScheduler`, the class in `src/utils/aiScheduler.js`. It is a single-day greedy scheduler. It takes tasks with a duration, a priority and an optional `HH:MM` deadline, and places each one at the best free start on a 15-minute grid inside the working hours. It then re-sorts the placed tasks by start time, rounds small gaps up to a 15-minute break, and reports coverage, balance and efficiency metrics.

The project has four modules:

- `TimeCodec` (`time_codec.dfy`) holds `timeToMinutes` and `minutesToTime` over `seq<char>`. Decimal parsing and printing and the two-digit padding are written out.
- `Scoring` (`scoring.dfy`) holds the task record and the three score factors: urgency, the time-of-day efficiency table, and deadline proximity. Scores are exact `real`s.
- `Sorting` (`sorting.dfy`) holds one stable insertion sort on a real key. It stands for the two `Array.prototype.sort` calls: by descending urgency and by ascending start time.
- `Scheduler` (`scheduler.dfy`) holds the rest:
  - the `AIScheduler` class, whose configuration is `const` fields set by the constructor;
  - the slot scan, as the module-level methods `ScanWindow` and `ScanCandidate`;
  - the metrics histogram loop, as `HourlyDistribution`;
  - the specification functions and predicates, and the lemmas about them.

Inside a schedule, times are minutes since midnight. The source stores `minutesToTime(m)` strings and parses them back. `TimeCodec.RoundTrip` proves this gives `m` back for every `m >= 0`.

The slot search is specified by three predicates:

- `Acceptable`: a grid start whose interval is conflict-free and ends inside the window.
- `NoSlot`: no candidate is acceptable.
- `IsBestSlot`: the candidate is acceptable, has maximal `SlotScore`, and is the earliest candidate with that score.

The greedy driver is specified by the relation `GreedyRun`. It holds between the tasks in urgency order and the placed tasks in placement order.

## Model

| member | source | states |
|---|---|---|
| TimeCodec.RoundTrip | src/utils/aiScheduler.js:10-20 | parsing the printed form of any `m >= 0` gives `m` |
| TimeCodec.TimeToMinutes | src/utils/aiScheduler.js:10-13 | hours times 60 plus minutes; when the minute field is below 60, the result's quotient and remainder by 60 are the hour and minute fields |
| TimeCodec.MinutesToTime | src/utils/aiScheduler.js:16-20 | a well-formed `HH:MM` string whose fields are the decimals of `m / 60` and `m % 60`, each padded to two digits |
| TimeCodec.CanonicalRoundTrip | src/utils/aiScheduler.js:10-20 | a canonical `HH:MM` string (minutes below 60) is printed back unchanged after parsing |
| Scoring.BaseWeight | src/utils/aiScheduler.js:24-25 | the weight is 100 exactly for `high`, 50 exactly for `medium`, else 25 |
| Scoring.UrgencyAt | src/utils/aiScheduler.js:23-37 | without a deadline urgency is the base weight; with one it is at least 1.1 times the base weight; always positive |
| Scoring.CalculateUrgency | src/utils/aiScheduler.js:23-37 | on a parsed time: the base weight without a deadline; with one, at least 1.1 times the base weight, and at most twice it iff the time is not past the deadline |
| Scoring.UrgencyMonotone | src/utils/aiScheduler.js:29-36 | urgency never decreases as the current time moves forward |
| Scoring.UrgencyPastDeadline | src/utils/aiScheduler.js:29-36 | with a deadline, urgency is at most twice the base weight iff the deadline has not passed |
| Scoring.UrgencyPriorityOrder | src/utils/aiScheduler.js:23-37 | with the same deadline, a heavier priority is at least as urgent |
| Scoring.EfficiencyAtHour | src/utils/aiScheduler.js:40-64 | the score is one of 0.7, 1.0, 1.1, 1.3, 1.56; 1.56 iff `high` in a peak hour, 1.3 iff another priority in a peak hour, 1.1 iff a good hour, 0.7 iff outside 8..17 and in neither list, 1.0 otherwise |
| Scoring.CalculateEfficiencyScore | src/utils/aiScheduler.js:40-64 | on a parsed time: one of the five table values, and 1.56 iff the task is `high` and the hour `floor(minutes / 60)` is a peak hour |
| Scoring.DeadlineScore | src/utils/aiScheduler.js:102-107 | the factor lies in [0.1, 1.0] and is 1.0 iff there is no deadline or the start is the deadline |
| Scoring.DeadlineScoreCloser | src/utils/aiScheduler.js:102-107 | a start closer to the deadline never gets a lower factor |
| Scoring.SlotScorePositive | src/utils/aiScheduler.js:97-113 | every candidate's total score is positive, so it beats the initial best score of -1 |
| Scoring.UrgencyOfPrinted | src/utils/aiScheduler.js:86-98 | the urgency of the printed start time equals the urgency at the start minute |
| Scoring.EfficiencyOfPrinted | src/utils/aiScheduler.js:86-99 | the efficiency of the printed start time is the table entry for hour `floor(start / 60)` |
| Scoring.CandidateScore | src/utils/aiScheduler.js:97-109 | the score the search computes from printed times equals `SlotScore` at the start minute |
| Scheduler.CanFitTask | src/utils/aiScheduler.js:67-73 | the task fits iff start minutes plus duration is at most the end minutes |
| Scheduler.CanFitPrinted | src/utils/aiScheduler.js:67-73 | on printed times, the task fits iff its duration is at most the difference of the minutes |
| Scheduler.AcceptableFits | src/utils/aiScheduler.js:84-97 | every candidate the search accepts fits between its start and the end of the window |
| Scheduler.HasConflict | src/utils/aiScheduler.js:90-95 | no contract of its own; `HasConflictIff` states it is true iff some scheduled task overlaps the candidate |
| Scheduler.HasConflictIff | src/utils/aiScheduler.js:90-95 | a conflict exists iff some scheduled task's half-open interval overlaps the candidate's |
| Scheduler.ScanStep | src/utils/aiScheduler.js:97-114 | one candidate step keeps "best slot below the bound" (or "nothing accepted below the bound") true at the next grid point |
| Scheduler.ScanCandidate | src/utils/aiScheduler.js:85-115 | one loop iteration keeps the scan state invariant from candidate `s` to `s + 15` |
| Scheduler.ScanDone | src/utils/aiScheduler.js:84-118 | past the last candidate, the scan state is the answer: none iff no slot, otherwise the best slot |
| Scheduler.ScanWindow | src/utils/aiScheduler.js:80-118 | the scan returns null iff no grid candidate is acceptable; otherwise it returns the acceptable candidate of maximal score that is earliest among equals |
| Scheduler.AIScheduler.FindOptimalSlot | src/utils/aiScheduler.js:76-119 | the same, with the window given as `HH:MM` strings |
| Scheduler.SlotValid | src/utils/aiScheduler.js:84-97 | a returned slot has `workStart <= start`, lies on the 15-minute grid, has `end == start + duration <= workEnd`, and overlaps no scheduled task |
| Scheduler.BestSlotUnique | src/utils/aiScheduler.js:109-114 | there is at most one best slot, so the choice is determined |
| Scheduler.GreedyExtend | src/utils/aiScheduler.js:137-148 | one more task extends the greedy run by the outcome of its slot search |
| Scheduler.GreedySubMultiset | src/utils/aiScheduler.js:137-148 | the placed tasks are a sub-multiset of the input, so there are no more of them than tasks |
| Scheduler.GreedyDisjoint | src/utils/aiScheduler.js:137-148 | placed tasks are pairwise non-overlapping; each is on the grid, has its own duration, ends by the window's end and carries its slot score |
| Scheduler.GreedyUnique | src/utils/aiScheduler.js:137-148 | the greedy run is a function of its input |
| Scheduler.UrgencyOrder | src/utils/aiScheduler.js:130-134 | the placement order is a permutation of the input whose urgency at the start of the day never increases |
| Sorting.SortBy | src/utils/aiScheduler.js:130-134 | the sort result is a permutation of its input, sorted by the key |
| Scheduler.SortKeepsDisjoint | src/utils/aiScheduler.js:151 | re-sorting by start time keeps the tasks pairwise non-overlapping |
| Scheduler.SortKeepsTasks | src/utils/aiScheduler.js:151 | re-sorting by start time keeps the same multiset of tasks |
| Scheduler.SortedIsChronological | src/utils/aiScheduler.js:151 | the re-sorted schedule is in start order |
| Scheduler.DriverOutput | src/utils/aiScheduler.js:122-154 | output length is at most the input length; the entries are distinct input tasks; before breaks they are in start order, pairwise non-overlapping and well placed; breaks keep tasks and start order |
| Scheduler.AIScheduler.OptimizeSchedule | src/utils/aiScheduler.js:122-155 | empty input gives `[]`; the output has at most one entry per input task, is in start order, and is the greedy run in urgency order, re-sorted by start, with breaks added |
| Scheduler.AIScheduler.AddBreaks | src/utils/aiScheduler.js:158-181 | a schedule of length at most 1 is returned unchanged; otherwise the result is `BreaksAdded` |
| Scheduler.BreaksKeepOtherFields | src/utils/aiScheduler.js:161-178 | breaks change only `endTime`, and never that of the last entry |
| Scheduler.BreakOvershoot | src/utils/aiScheduler.js:167-176 | entry `i` changes iff `0 < gap < 15`; it then ends at `end + 15`, which passes the next start by `15 - gap` |
| Scheduler.BreaksKeepStarts | src/utils/aiScheduler.js:161-178 | a schedule in start order stays in start order after breaks |
| Scheduler.BreaksIdempotent | src/utils/aiScheduler.js:158-181 | adding breaks a second time changes nothing |
| Scheduler.HourlyDistribution | src/utils/aiScheduler.js:193-200 | the histogram array holds, per hour, each task's duration spread evenly over the hours from its start hour to its end hour |
| Scheduler.TotalDuration | src/utils/aiScheduler.js:187-188 | no contract of its own; `SubTotal` states that among non-negative durations it lies between 0 and the total of any list the tasks are drawn from |
| Scheduler.SubTotal | src/utils/aiScheduler.js:187-188 | among non-negative durations, a sub-multiset's total is between 0 and the whole total |
| Scheduler.CoverageBounded | src/utils/aiScheduler.js:187-190 | when the scheduled tasks are drawn from the tasks and durations are non-negative, `0 <= coverage <= 1` |
| Scheduler.Balance | src/utils/aiScheduler.js:202-205 | balance is at least 0 and at least `1 - variance / avg^2` |
| Scheduler.MetricsOf | src/utils/aiScheduler.js:184-211 | an empty schedule gives `{0, 0, 0}`; balance is at least 0; otherwise efficiency is `0.4 * coverage + 0.3 * balance + 0.3` |
| Scheduler.AIScheduler.CalculateMetrics | src/utils/aiScheduler.js:184-211 | the method returns `MetricsOf` of its inputs and the configured working hours |
| Scheduler.AIScheduler.constructor | src/utils/aiScheduler.js:3-7 | the working hours are stored and the break length is 15 |

## Left out

- The React and browser files (`src/App.jsx` and the components) are not part of this model. They are UI glue: state hooks, a timer, date formatting, drag reordering and script injection.
- `lunchBreak` (`src/utils/aiScheduler.js:6`) is stored but never read, so the model has no such field.
- IEEE-754 doubles are modelled as exact reals. Rounding could flip a near-tie between two candidate scores; the model does not capture that.
- Sorting.SortBy: the source relies on a stable engine sort. The model proves a permutation sorted by the key. It states nothing about the order of equal keys.
- Malformed `HH:MM` strings are excluded by the precondition `WellFormed`, because `timeToMinutes` does no validation. A deadline is either `""` (the falsy "no deadline") or well formed.
- TimeCodec.RoundTrip covers only `m >= 0`. Durations may be negative, since the duration input has no minimum, and then a slot's end minute can be negative. The source prints such an end as a string like `-1:-30`, which parses back to a different number (-90 for -30). The model keeps the raw minute count in `endTime`, so for a negative end the returned `endTime` differs from the source's string. Break insertion and the metrics differ as well; see the next line.
- Scheduler.AIScheduler.AddBreaks and Scheduler.BreaksAdded compute the gap from the raw end minute. The source computes it from the end string read back. For an end `e` in (-60, 0), the source reads back `e - 60`. So when an entry ends in (-15, 0) and the next starts less than 15 minutes after that end, the model extends the entry by a break and the source does not. Example: window 00:00-00:30, a task of duration -5 and then one of 30, both placed at 0. The source sees a gap of 65; the model sees a gap of 5 and ends the first task at 10. The hourly histogram of `calculateMetrics` then differs too. The model's contracts hold for its own minute arithmetic and match the source whenever every duration is non-negative.
- A `null` or absent task list is modelled as the empty sequence.
- Scheduler.AIScheduler.AddBreaks builds a new sequence. The source writes `endTime` into the shared task objects in place, which also changes the array passed in. That aliasing is not modelled.
- Scheduler.AIScheduler.CalculateMetrics requires `MetricsDefined`. It excludes the inputs where the source computes NaN or Infinity or writes past its 24-slot array, and one further case:
  - a zero total duration of the input tasks;
  - a non-empty schedule whose durations sum to zero, where the average load is 0 and the balance divides by it;
  - `workStart == workEnd`, where the source divides by zero when it computes the average load;
  - `workStart > workEnd`, where a negative duration can still give a non-empty schedule and finite, negative-average metrics; this case is excluded for simplicity;
  - an end hour of 24 or more.
- Scheduler.Balance: the upper bound `balance <= 1` is not stated. It holds only because `variance / avg^2 >= 0`, a nonlinear fact about reals the model does not prove.
- Scheduler.MetricsOf: the variance is a sum of squared deviations over the 24 hours divided by 24. `Math.pow` is modelled as exact multiplication.
- Task records carry only `id`, `name`, `duration`, `priority` and `deadline`. Other properties copied by the spread `...task` are not modelled.
