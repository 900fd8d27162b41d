/**
 * The forecasting side: the hour-of-day and day-of-week features derived from
 * a timestamp, the twelve synthetic feature rows built at 5-minute offsets
 * after the last stored reading, and the forwarding of the predictions.
 * The regression model itself is not modelled: its predictions are inputs.
 *
 * Time is whole minutes counted from a Monday 00:00 epoch, so day 0 is Monday.
 */
module Forecast {
  import opened Telemetry
  import opened Collection

  /** Number of forecast rows. */
  const Horizon: int := 12
  /** Minutes between consecutive forecast rows. */
  const ForecastStepMinutes: int := 5
  const MinutesPerHour: int := 60
  const MinutesPerDay: int := 1440

  /** The hour of the day of a timestamp. */
  function HourOfDay(t: nat): (h: int)
    ensures 0 <= h < 24
  {
    (t / MinutesPerHour) % 24
  }

  /** The day of the week of a timestamp, Monday being 0. */
  function DayOfWeek(t: nat): (d: int)
    ensures 0 <= d < 7
  {
    (t / MinutesPerDay) % 7
  }

  /**
   * The six model inputs of one row, in the order of the features list:
   * distance, infrared, entry, exit, hour, day of week.
   */
  datatype FeatureRow = FeatureRow(distance: real, infrared: int, entry: int, exit: int, hour: int, dayOfWeek: int)

  /** The three random 0/1 draws of one forecast row: infrared, entry, exit. */
  datatype FlagDraw = FlagDraw(infrared: bool, entry: bool, exit: bool)

  /**
   * The feature row the model is trained on for one stored row. Its flags
   * keep the row's 0/1 values, and its day and hour read the hour of the week
   * of the row's timestamp.
   */
  function TrainingRow(row: Row): (f: FeatureRow)
    ensures WellFormed(row) ==> 0 <= f.infrared <= 1 && 0 <= f.entry <= 1 && 0 <= f.exit <= 1
    ensures 0 <= f.hour < 24 && 0 <= f.dayOfWeek < 7
    ensures f.dayOfWeek * 24 + f.hour == (row.timestamp / 60) % 168
  {
    HourOfWeek(row.timestamp);
    FeatureRow(row.distance, row.infrared, row.entry, row.exit, HourOfDay(row.timestamp), DayOfWeek(row.timestamp))
  }

  /**
   * The time of forecast row i: (i + 1) steps of 5 minutes after the last
   * stored timestamp. It lies after the last timestamp on the 5-minute grid
   * from it, and within the hour for the twelve rows.
   */
  function ForecastTime(last: nat, i: nat): (t: nat)
    ensures last < t && (t - last) % ForecastStepMinutes == 0
    ensures i < Horizon ==> t <= last + 60
  {
    last + ForecastStepMinutes * (i + 1)
  }

  /** Forecast row i: the mean distance, the drawn 0/1 flags and the hour and day of its time. */
  function ForecastRow(last: nat, meanDistance: real, i: nat, draw: FlagDraw): (f: FeatureRow)
    ensures f.distance == meanDistance
    ensures f.infrared == (if draw.infrared then 1 else 0) && f.entry == (if draw.entry then 1 else 0)
            && f.exit == (if draw.exit then 1 else 0)
    ensures 0 <= f.hour < 24 && 0 <= f.dayOfWeek < 7
  {
    var t := ForecastTime(last, i);
    FeatureRow(meanDistance, Bit(draw.infrared), Bit(draw.entry), Bit(draw.exit), HourOfDay(t), DayOfWeek(t))
  }

  /** The forecast loop: append one feature row per 5-minute offset. */
  method FutureFeatures(last: nat, meanDistance: real, draws: seq<FlagDraw>) returns (rows: seq<FeatureRow>)
    requires |draws| == Horizon
    ensures |rows| == Horizon
    ensures forall i :: 0 <= i < Horizon ==> rows[i] == ForecastRow(last, meanDistance, i, draws[i])
  {
    rows := [];
    for i := 0 to Horizon
      invariant |rows| == i
      invariant forall j :: 0 <= j < i ==> rows[j] == ForecastRow(last, meanDistance, j, draws[j])
    {
      var futureTime := last + (i + 1) * ForecastStepMinutes;
      var hour := HourOfDay(futureTime);
      var day := DayOfWeek(futureTime);
      var draw := draws[i];
      rows := rows + [FeatureRow(meanDistance, Bit(draw.infrared), Bit(draw.entry), Bit(draw.exit), hour, day)];
    }
  }

  /**
   * The forwarding of the predictions, one send each, in order, each judged by
   * the acceptance rule. A reply of any kind moves on to the next prediction;
   * a network failure is logged as a failed send and ends the whole
   * forwarding, since its handler is around the loop.
   */
  method SendForecasts(predictions: seq<real>, replies: seq<Response>) returns (log: seq<Delivery>)
    requires |replies| == |predictions|
    ensures |log| <= |predictions|
    ensures forall i :: 0 <= i < |log| ==> log[i] == Delivery(Prediction(predictions[i]), Accepted(replies[i]))
    ensures forall i :: 0 <= i < |log| - 1 ==> replies[i].Reply?
    ensures |log| < |predictions| ==> 0 < |log| && replies[|log| - 1].NetworkError?
  {
    log := [];
    for i := 0 to |predictions|
      invariant |log| == i
      invariant forall j :: 0 <= j < i ==>
                  replies[j].Reply? && log[j] == Delivery(Prediction(predictions[j]), Accepted(replies[j]))
    {
      var reply := replies[i];
      log := log + [Delivery(Prediction(predictions[i]), Accepted(reply))];
      if reply.NetworkError? {
        return;
      }
    }
  }

  /** Division with remainder has one answer. */
  lemma DivMod(n: int, d: int, q: int, r: int)
    requires d > 0 && 0 <= r < d && n == d * q + r
    ensures n / d == q && n % d == r
  {
    var q0, r0 := n / d, n % d;
    assert d * (q - q0) == r0 - r;
    if q > q0 {
      AtLeastOnce(d, q - q0);
    } else if q < q0 {
      AtLeastOnce(d, q0 - q);
    }
  }

  lemma AtLeastOnce(d: int, k: int)
    requires d > 0 && k >= 1
    ensures d * k >= d
  {
  }

  /** Day of week and hour of day together read one clock: the hour of the week. */
  lemma HourOfWeek(t: nat)
    ensures DayOfWeek(t) * 24 + HourOfDay(t) == (t / 60) % 168
  {
    var h, m := t / 60, t % 60;
    var q, r := h / 24, h % 24;
    DivMod(t, 1440, q, 60 * r + m);
    var a, b := q / 7, q % 7;
    DivMod(h, 168, a, 24 * b + r);
  }

  /** Forecast times lie after the last timestamp, 5 minutes apart, the last one an hour later. */
  lemma ForecastSchedule(last: nat)
    ensures forall i :: 0 <= i < Horizon ==> last < ForecastTime(last, i) <= last + 60
    ensures forall i, j :: 0 <= i < j < Horizon ==> ForecastTime(last, i) < ForecastTime(last, j)
    ensures forall i :: 0 <= i < Horizon - 1 ==> ForecastTime(last, i + 1) == ForecastTime(last, i) + 5
    ensures ForecastTime(last, Horizon - 1) == last + 60
  {
  }

  /**
   * Each forecast row carries 0/1 flags, an hour in 0..23 and a day in 0..6,
   * and its (day, hour) is the hour of the week of the last timestamp or the
   * one after it, wrapping from Sunday 23:00 to Monday 00:00.
   */
  lemma ForecastRowFeatures(last: nat, meanDistance: real, i: nat, draw: FlagDraw)
    requires i < Horizon
    ensures var f := ForecastRow(last, meanDistance, i, draw);
      && f.distance == meanDistance
      && 0 <= f.infrared <= 1 && 0 <= f.entry <= 1 && 0 <= f.exit <= 1
      && 0 <= f.hour < 24 && 0 <= f.dayOfWeek < 7
      && var now := DayOfWeek(last) * 24 + HourOfDay(last);
         f.dayOfWeek * 24 + f.hour in {now, (now + 1) % 168}
  {
    var t := ForecastTime(last, i);
    HourOfWeek(last);
    HourOfWeek(t);
    var h, m := last / 60, last % 60;
    var off := t - last;
    assert 0 < off <= 60;
    if m + off < 60 {
      DivMod(t, 60, h, m + off);
    } else {
      DivMod(t, 60, h + 1, m + off - 60);
      var a, b := h / 168, h % 168;
      if b + 1 < 168 {
        DivMod(h + 1, 168, a, b + 1);
      } else {
        DivMod(h + 1, 168, a + 1, 0);
      }
    }
  }

  /** Every forecast time lies after every stored timestamp, since the last stored row is the latest. */
  lemma ForecastAfterHistory(start: nat, inputs: seq<StepInput>, i: nat)
    requires |Run(start, inputs).rows| > 0
    requires i < Horizon
    ensures var rows := Run(start, inputs).rows;
      forall j :: 0 <= j < |rows| ==> rows[j].timestamp < ForecastTime(rows[|rows| - 1].timestamp, i)
  {
    RowsInTimeOrder(start, inputs);
  }

  /** The training rows of a generated store carry 0/1 flags, hours in 0..23 and days in 0..6. */
  lemma TrainingRowsWellFormed(start: nat, inputs: seq<StepInput>)
    ensures forall j :: 0 <= j < |Run(start, inputs).rows| ==>
              var f := TrainingRow(Run(start, inputs).rows[j]);
              0 <= f.infrared <= 1 && 0 <= f.entry <= 1 && 0 <= f.exit <= 1
              && 0 <= f.hour < 24 && 0 <= f.dayOfWeek < 7
  {
  }
}
