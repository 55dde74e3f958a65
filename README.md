# Login-authentication simulation: a Dafny model

This project models the computational core of `simulacao-login/main.py`, a
Monte Carlo simulation of a login/authentication system. Each of the 1000
iterations draws a number of users. An iteration that draws no user is
skipped. Otherwise every user gets an arrival gap (`tempo_chegada`), an
authentication time (`tempo_autenticacao`) and a 0/1 login outcome
(`resultado_login`), and is appended to the event list `eventos`. The list
becomes a data frame. The script then derives `tempo_total` (arrival plus
authentication time) and computes these metrics:

- request count;
- total time span;
- throughput;
- success and failure counts;
- estimated success rate;
- mean authentication time over successful logins only;
- number of SLA violations (authentication time strictly above 5.0 s, counted over all logins);
- a rolling throughput series over windows of 50 `tempo_total` values.

The random draws are inputs to the model. One `RunDraw` holds what one
iteration draws: the user count and three sequences of that length. Times are
Dafny `real`s.

Modules:

- `Options` (options.dfy): the `Option` type for values pandas leaves undefined.
- `Stats` (stats.dfy): max, min and sum of a column, and bounds on a mean.
- `Events` (events.dfy): the login event, the per-iteration draw, and `Flatten`, the specification of the finished log.
- `Simulation` (simulation.dfy): the script's constants and `BuildLog`, the nested loop with its `continue`. It is proved equal to `Flatten`.
- `Metrics` (metrics.dfy): the data frame, the `tempo_total` column and every metric of lines 58-69, plus the summary record.
- `Rolling` (rolling.dfy): the rolling throughput series.
- `Pipeline` (pipeline.dfy): all of the above, end to end.

Edge cases, as the script behaves:

- **Empty log.** `pd.DataFrame([])` has no columns, so the column access on line 53 raises. The script does not produce NaN metrics. `Summarize` returns `None` for an empty log. Given draws with no user at all, `Simulate` returns an empty log, no summary and an empty rolling series; the script itself would raise at line 53.
- **No configuration check.** The code never validates its configuration, so the model has no configuration error. With an arrival rate of 0, every iteration draws 0 users and is skipped, and the log is empty.
- **Rolling column.** The rolling window runs over `tempo_total` itself, not over the cumulative `tempo_seg` column.
- **Degenerate window.** A window whose values are all equal divides by a zero spread. numpy gives `inf` there, modelled as `Unbounded`.
- **Zero successes.** On a non-empty log with no successes, the success rate is 0 and the mean authentication time is `None`. pandas gives NaN for that mean.

## Model

| member | source | states |
|---|---|---|
| `Events.Zip` | simulacao-login/main.py:45-50 | within one iteration, event i carries exactly the iteration's i-th arrival gap, i-th authentication time and i-th outcome, and there is one event per user |
| `Events.Flatten` | simulacao-login/main.py:34-50 | the log's length is the sum of the per-iteration user counts |
| `Events.FlattenAppend` | simulacao-login/main.py:36-50 | the events of later iterations follow those of earlier ones: the log of two consecutive blocks of iterations is the concatenation of their logs |
| `Events.EventOfUser` | simulacao-login/main.py:41-50 | user i of iteration j sits at position (users of the iterations before j) + i of the log, carrying that iteration's i-th draws |
| `Events.EmptyRunsSkipped` | simulacao-login/main.py:37-39 | iterations that drew no user leave no trace: dropping them gives the same log |
| `Events.NonEmptyRuns` | simulacao-login/main.py:38-39 | every iteration that is not skipped drew at least one user and is one of the draws |
| `Events.NonEmptyRunsCount` | simulacao-login/main.py:38-39 | an iteration that drew a user is kept as many times as it occurs, and an iteration that drew none is not kept at all |
| `Events.FlattenBinary` | simulacao-login/main.py:43 | outcomes drawn as 0/1 stay 0/1 in the log |
| `Simulation.BuildLog` | simulacao-login/main.py:34-50 | the nested loop that skips zero-user iterations and appends each user in order produces exactly the run-after-run concatenation `Flatten` |
| `Metrics.Frame` | simulacao-login/main.py:52 | the frame has one row per event, in log order; each row holds its event's arrival, authentication time and outcome, and no `tempo_total` yet |
| `Metrics.AssignTotal` | simulacao-login/main.py:53 | after the assignment, the frame has the same number of rows, each row's `tempo_total` is its arrival plus authentication time, and the other columns are unchanged |
| `Metrics.TotalColumn` | simulacao-login/main.py:52-53 | after the assignment, every row's `tempo_total` equals its event's arrival plus authentication time, and the other columns are the event's fields |
| `Metrics.TotalColumnIdempotent` | simulacao-login/main.py:59 | assigning `tempo_total` a second time leaves the frame unchanged |
| `Metrics.Span` | simulacao-login/main.py:60 | `total_tempo` is the largest difference between one event's total time and another event's arrival, and some pair of events attains it |
| `Metrics.SpanCoversAuth` | simulacao-login/main.py:60 | the span is at least every event's authentication time, so it is non-negative when authentication times are |
| `Metrics.Throughput` | simulacao-login/main.py:68 | when the span is positive, throughput times span equals the request count; otherwise throughput is 0; it is never negative |
| `Metrics.Successes` | simulacao-login/main.py:62 | the filtered rows all have outcome 1 and come from the log; no event with outcome 1 is missing from them |
| `Metrics.SuccessesCount` | simulacao-login/main.py:62 | the filter keeps every event with outcome 1 exactly as often as it occurs in the log, and no event with another outcome |
| `Metrics.OutcomeCountsCover` | simulacao-login/main.py:65-66 | with 0/1 outcomes, the outcome-0 and outcome-1 events together are all the events |
| `Metrics.SuccessCount` | simulacao-login/main.py:65 | with 0/1 outcomes, the sum of the outcome column is the number of events with outcome 1 |
| `Metrics.FailureCount` | simulacao-login/main.py:66 | with 0/1 outcomes, the row count minus the successes is the number of events with outcome 0 |
| `Metrics.SuccessRate` | simulacao-login/main.py:67 | the estimated rate multiplied by the request count gives the success count |
| `Metrics.SuccessPartition` | simulacao-login/main.py:65-66 | for 0/1 outcomes, the summed outcome column counts the successes, the failures are the outcome-0 events, and the two add up to the request count |
| `Metrics.SuccessRateBounds` | simulacao-login/main.py:67 | on a non-empty log the estimated success rate lies in [0, 1], and multiplied by the request count it gives the number of successes |
| `Metrics.MeanAuthOfSuccesses` | simulacao-login/main.py:62-63 | the mean authentication time is undefined exactly when no event has outcome 1 |
| `Metrics.MeanWithinSuccessRange` | simulacao-login/main.py:62-63 | the mean lies within any bounds that hold for the authentication times of successful events; failed events are not constrained |
| `Metrics.MeanIgnoresFailures` | simulacao-login/main.py:62-63 | adding a failed event does not change the mean authentication time |
| `Metrics.SlaViolations` | simulacao-login/main.py:69 | the violation count never exceeds the number of requests |
| `Metrics.SlaMonotone` | simulacao-login/main.py:69 | raising the SLA threshold never increases the violation count |
| `Metrics.SlaStrict` | simulacao-login/main.py:69 | there are no violations exactly when every authentication time, successful or not, is at most the threshold (the test is strict) |
| `Metrics.Summarize` | simulacao-login/main.py:58-80 | the summary exists exactly when the log is non-empty; its request count is the log length, successes plus failures equal it, violations do not exceed it; every field is the metric of that name: total time is the span, throughput the guarded rate, and successes, failures, success rate, mean authentication time and violations the corresponding metric of the log |
| `Metrics.SummaryOfBinaryLog` | simulacao-login/main.py:63-67 | for 0/1 outcomes the summary's successes and failures are the outcome-1 and outcome-0 counts, the rate is in [0, 1], and the mean is missing exactly when nothing succeeded |
| `Metrics.ReferenceScenario` | simulacao-login/main.py:62-69 | ten successes taking nine times 1 s and once 10 s give a mean of 1.9 and one violation at threshold 5; one failed login taking 10 s is a violation but leaves the mean undefined |
| `Rolling.Spread` | simulacao-login/main.py:187 | `x.max() - x.min()` is the largest difference between two values of the window; some pair attains it, and it is non-negative |
| `Rolling.WindowEndingAt` | simulacao-login/main.py:187 | the window at position k holds w values and ends with the value at k |
| `Rolling.WindowAt` | simulacao-login/main.py:187 | an entry is missing exactly before position w-1; it is unbounded exactly when the full window is flat; otherwise it is w divided by the window's positive spread, a positive rate |
| `Rolling.RollingThroughput` | simulacao-login/main.py:186-187 | the series has one entry per row; the first w-1 entries are missing; entry k is computed from the window of w values ending at k |
| `Rolling.WindowLocal` | simulacao-login/main.py:187 | an entry depends only on the w values of the window ending at its position |
| `Pipeline.Simulate` | simulacao-login/main.py:34-80 | over the 1000 iterations, the log has one event per drawn user; a summary exists exactly when some user was drawn, and then its success count and rate are in range; the series has one entry per event |

## Left out

- The random draws (`np.random.seed`, `poisson`, `exponential`, `binomial`) are inputs. Their distributions cannot be stated in this model. Reproducibility under a fixed seed therefore reduces to this: the log is a function of the draws.
- Floating-point rounding is left out. Times are exact reals, so NaN arises only where the model uses `None` or `Missing`.
- The cumulative `tempo_seg` column (line 185) is computed but never used.
- Prompt construction and the two calls to the remote text generator (lines 85-133, 229-250) are left out, and so is `groq_Connect.py`. They are a network client and credential loading.
- Chart rendering and the Word document (lines 138-184, 188-224 and 252-257) are left out. They are I/O through external libraries.
- The `sys.stdout` reconfiguration (lines 2-3) and the final `print` (line 259) are left out.
