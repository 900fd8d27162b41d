# Occupancy sensor pipeline: a Dafny model of its integer core

The script `RegressionModel/sensor_data_with_prediction.py` simulates an
occupancy-counting sensor. For one day of 30-minute steps it keeps a running
count of the people in a room, which goes up by at most one (an entry) and then
down by at most one (an exit) per step. It appends one row per step to a CSV
record store and forwards each stored row to a ThingSpeak channel. It then
reloads the store and checks that every count lies in `[0, 20]`. Finally it
builds twelve synthetic feature rows at 5-minute offsets after the last
reading, predicts occupancy for them and forwards the predictions.

This project models the integer logic of that script and proves its
properties:

- `occupancy.dfy` (module `Occupancy`): the counter. It has the entry-then-exit
  step, the count after a run of steps, the per-step trace of 0/1 entry and
  exit flags, and the conservation law (final count = start + entries − exits).
- `telemetry.dfy` (module `Telemetry`): the acceptance rule for a send,
  "status 200 and a stripped body that is not `"0"`". It includes a model of
  Python's `str.strip()` over Python's whitespace set, and a statement of the
  rule that does not mention `strip`.
- `collection.dfy` (module `Collection`): the generation loop. `Generate` is
  imperative: it updates the count, the stored rows and the sends as the
  script's loop does, including `continue` after a failed append. It is proved
  equal to the step-by-step function `Run`. The store is characterised
  independently as the rows of exactly the steps whose append succeeded, in
  step order (`WrittenSteps`, `RowOf`). The reload (`Load`) is proved never to
  fail the bounds check; it fails only when no append succeeded.
- `forecast.dfy` (module `Forecast`): hour of day and day of week (Monday = 0),
  and the forecast loop `FutureFeatures`. It also has the forwarding of the
  predictions (`SendForecasts`), where a network error ends the remaining sends.

Modelling choices:

- Every random draw is an input. That covers the entry and exit draws, the
  infrared choice, and the forecast's infrared, entry and exit flags.
- Whether an append to the CSV file succeeds is an input boolean.
- Each HTTP reply is an input `Response`: `Reply(status, body)` or
  `NetworkError`, which stands for a `requests.RequestException`.
- `datetime.now()` is an input `start`. Timestamps are whole minutes from a
  Monday 00:00 epoch, so `hour = (t / 60) % 24` and `dayofweek = (t / 1440) % 7`.
- Distances and predictions are carried as opaque `real` values and are never
  computed on.

Reading sends are followed by the 16-second pause (line 97). A failed
append's `continue` skips both the send and the pause. Forecast sends are
preceded by the pause (line 264).

## Model

| member | source | states |
|---|---|---|
| `Occupancy.Step` | RegressionModel/sensor_data_with_prediction.py:56-66 | One step sets its entry and exit flags to 0 or 1. The new count is the old count plus entry minus exit. A count in [0, MAX_PEOPLE] stays there. |
| `Occupancy.StepGuards` | RegressionModel/sensor_data_with_prediction.py:60-66 | The entry is taken iff its draw succeeds and the count is below MAX_PEOPLE. The exit is taken iff its draw succeeds and the count after the entry is above 0. |
| `Occupancy.StepCorners` | RegressionModel/sensor_data_with_prediction.py:60-66 | From 0, both flags can fire in one step and the count stays 0; an exit draw alone does nothing. At MAX_PEOPLE no entry is taken. |
| `Occupancy.CountAfter` | RegressionModel/sensor_data_with_prediction.py:42-66 | Starting in range, the running count stays in [0, MAX_PEOPLE] after any number of steps. |
| `Occupancy.TraceAt` | RegressionModel/sensor_data_with_prediction.py:57-66 | Step k of the trace is taken from the count after k steps and leaves the count after k + 1 steps. |
| `Occupancy.Trace` | RegressionModel/sensor_data_with_prediction.py:57-66 | The per-step record has one entry per step. Every step records 0/1 entry and exit flags and, from an in-range start, an in-range count. |
| `Occupancy.Conservation` | RegressionModel/sensor_data_with_prediction.py:60-66 | The final count equals the start count plus all entries taken minus all exits taken. |
| `Occupancy.FromEmpty` | RegressionModel/sensor_data_with_prediction.py:42-66 | Counting from 0, the final count is in range and equals total entries minus total exits. |
| `Telemetry.LeadingSpaces` | RegressionModel/sensor_data_with_prediction.py:90 | Counts exactly the whitespace run at the front of the body: all counted characters are whitespace and the next is not. |
| `Telemetry.TrailingSpaces` | RegressionModel/sensor_data_with_prediction.py:90 | The same at the back of the body. |
| `Telemetry.Strip` | RegressionModel/sensor_data_with_prediction.py:90 | The stripped body is a slice of the body with only whitespace around it, and it neither starts nor ends with whitespace. |
| `Telemetry.StripIsZero` | RegressionModel/sensor_data_with_prediction.py:90 | The stripped body is `"0"` iff the body is one `'0'` with only whitespace around it (both directions). |
| `Telemetry.Accepted` | RegressionModel/sensor_data_with_prediction.py:88-95 | The rule shared by reading and forecast sends (lines 90 and 267): a send is accepted iff the reply has status 200 and its body is not a whitespace-padded `"0"`. A network error is never accepted. |
| `Telemetry.AcceptedExamples` | RegressionModel/sensor_data_with_prediction.py:90-93 | Accepted: 200 with `"1"`, and 200 with an empty body. Not accepted: 200 with `"0"` or `" 0\r\n"`, status 500 with any body, a network error. |
| `Collection.Stamp` | RegressionModel/sensor_data_with_prediction.py:49 | A step's timestamp is on the 30-minute grid from the start time, and the step index can be read back from it. |
| `Collection.ReadingOf` | RegressionModel/sensor_data_with_prediction.py:79-86 | A reading send carries field1..field5 of its row, which keep the row's bounds and 0/1 flags. |
| `Collection.SimStep` | RegressionModel/sensor_data_with_prediction.py:48-97 | One iteration only appends to the store and the sends. A written step adds one row stamped for that step and one send; a failed append adds neither. The count stays in range either way. |
| `Collection.Run` | RegressionModel/sensor_data_with_prediction.py:42-76 | After any steps from 0, the count is in range. Every stored row has an in-range count and 0/1 flags. There is one send per stored row, and no more rows than steps. |
| `Collection.Generate` | RegressionModel/sensor_data_with_prediction.py:20-97 | A failed initialization is fatal. Otherwise the 48-step loop ends in exactly the state `Run` describes. |
| `Collection.DurationIs48` | RegressionModel/sensor_data_with_prediction.py:34-36 | `(DAYS*24*60)//TIME_STEP_MINUTES` is 48. |
| `Collection.WrittenSteps` | RegressionModel/sensor_data_with_prediction.py:69-76 | Lists, in strictly increasing order, exactly the steps whose append succeeded. |
| `Collection.RunIsWrittenRows` | RegressionModel/sensor_data_with_prediction.py:48-97 | The count is the occupancy after all draws. The store holds exactly the rows of the written steps, in step order, each built from the occupancy trace. Send j carries row j's fields and is judged by that step's reply. |
| `Collection.RowsInTimeOrder` | RegressionModel/sensor_data_with_prediction.py:48-49 | Stored rows' timestamps strictly increase. |
| `Collection.AllWritten` | RegressionModel/sensor_data_with_prediction.py:48-72 | When every append succeeds, row k is step k, stamped start + 30k. |
| `Collection.FullStoreBalances` | RegressionModel/sensor_data_with_prediction.py:57-72 | When every append succeeds, the final count equals the Entry Count column's sum minus the Exit Count column's. |
| `Collection.FinalCountBalances` | RegressionModel/sensor_data_with_prediction.py:42-66 | Over all steps, stored or not, the final count equals total entries minus total exits. |
| `Collection.Load` | RegressionModel/sensor_data_with_prediction.py:102-125 | The reload succeeds, returning the rows unchanged, iff the store is non-empty and every count is in [0, MAX_PEOPLE]. An empty store is exactly the `EmptyStore` exit. |
| `Collection.LoadAfterRun` | RegressionModel/sensor_data_with_prediction.py:102-128 | Reloading a generated store never fails the bounds check at line 121. It succeeds, returning the rows, iff at least one append succeeded; otherwise it stops on the empty store. |
| `Collection.FullDay` | RegressionModel/sensor_data_with_prediction.py:34-121 | A full day with no failed append: 48 rows, the last stamped start + 1410 minutes, a successful reload, and an in-range final count. |
| `Forecast.HourOfDay` | RegressionModel/sensor_data_with_prediction.py:176 | The hour of a timestamp is in 0..23. |
| `Forecast.DayOfWeek` | RegressionModel/sensor_data_with_prediction.py:177 | The day of week of a timestamp is in 0..6. |
| `Forecast.HourOfWeek` | RegressionModel/sensor_data_with_prediction.py:176-177 | Day of week × 24 + hour is the hour of the week, `(t / 60) % 168`. The two derived features agree. |
| `Forecast.TrainingRow` | RegressionModel/sensor_data_with_prediction.py:174-188 | A stored row's feature row keeps its 0/1 flags, has hour in 0..23 and day in 0..6, and its day and hour read the hour of the week of the row's timestamp. |
| `Forecast.ForecastTime` | RegressionModel/sensor_data_with_prediction.py:245 | A forecast time lies after the last timestamp, on the 5-minute grid from it, and within the hour for the twelve rows. |
| `Forecast.ForecastRow` | RegressionModel/sensor_data_with_prediction.py:246-253 | A forecast row has the mean distance, the drawn flags as 0/1, hour in 0..23 and day in 0..6. |
| `Forecast.FutureFeatures` | RegressionModel/sensor_data_with_prediction.py:241-253 | The forecast loop builds exactly 12 rows. Row i has the mean distance, the drawn flags, and the hour and day of last + 5(i+1) minutes. |
| `Forecast.ForecastSchedule` | RegressionModel/sensor_data_with_prediction.py:244-245 | Forecast times lie after the last timestamp, strictly increase in 5-minute steps, and the last one is at +60. |
| `Forecast.ForecastRowFeatures` | RegressionModel/sensor_data_with_prediction.py:244-253 | Each forecast row has the mean distance, 0/1 flags, hour in 0..23 and day in 0..6. Its (day, hour) is that of the last timestamp or the next hour of the week, including the Sunday-to-Monday wrap. |
| `Forecast.ForecastAfterHistory` | RegressionModel/sensor_data_with_prediction.py:243-245 | Every forecast time lies after every stored timestamp. |
| `Forecast.TrainingRowsWellFormed` | RegressionModel/sensor_data_with_prediction.py:174-189 | The training feature rows of a generated store have 0/1 flags, hours in 0..23 and days in 0..6. |
| `Forecast.SendForecasts` | RegressionModel/sensor_data_with_prediction.py:261-275 | Predictions are sent in order, each judged by the shared acceptance rule. A network error is logged as a failed send and ends the forwarding, so the log stops right after the first one; all are sent when there is none. |

## Left out

- A failed append is taken to write nothing. In the script, `writerow` inside `with open(..., "a")` (lines 70-72) could fail partway and leave a partial line that `read_csv` would later see; the model does not capture partial rows.
- CSV formatting and parsing: the header row's text, `strftime` timestamps and `pd.read_csv`. The store is a sequence of rows; reloading returns the rows written. The file-not-found and parse-error exits (lines 109-117) and the missing-column `KeyError` exits (lines 126-128, 138-140, 191-193) cannot arise from a store the model writes (given the assumption above), so they are not modelled.
- Initialization failure: `PermissionError` and other errors both exit with status 1 (lines 26-31). They are one `CannotInitialize` result.
- The network, the 10-second timeout and the 16-second `time.sleep` pauses (lines 89, 97, 264-266): replies are inputs, and timing is not modelled.
- The probabilities `ENTRANCE_PROBABILITY`, `EXIT_PROBABILITY` and the infrared rate, and the uniform distance draw: every draw is an input, so no statement is made about distributions.
- Floating point: the distance reading and its rounding, the mean distance and infrared rate (lines 248-249), and the rounding of predictions to 2 decimals (line 265). These are opaque `real` values.
- `datetime.now()`'s seconds and microseconds: timestamps are whole minutes. Offsets are whole minutes, so the sub-minute part changes neither hour nor day.
- The daily `resample("D")` aggregates (lines 131-143) and all plotting and console messages (lines 145-172, 224-238, 277-289).
- `train_test_split`, `LinearRegression` fit and predict (lines 195-214, 255): library numerics. The predictions are inputs to `SendForecasts`.
- The evaluation block (lines 212-222): it calls `r2_score` and `mean_squared_error`, which the script never imports. It therefore always raises, and the handler at line 221 swallows the error, so it has no effect to model.
