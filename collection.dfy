/**
 * Data collection: the generation loop that advances the occupancy counter
 * once per simulated step, appends one row per step to the record store (an
 * append may fail, and then the step's row and its telemetry send are
 * skipped), forwards each stored row, and the reload that checks every stored
 * count against the bounds.
 *
 * Time is whole minutes counted from a Monday 00:00 epoch.
 */
module Collection {
  import opened Occupancy
  import opened Telemetry

  const Days: int := 1
  const TimeStepMinutes: int := 30
  /** Number of simulated steps: one day of 30-minute steps. */
  const DurationSteps: int := (Days * 24 * 60) / TimeStepMinutes

  /**
   * One row of the record store, its fields in column order: Timestamp,
   * Ultrasonic Distance (cm), Infrared Detected, Total People Count, Entry
   * Count, Exit Count.
   */
  datatype Row = Row(timestamp: nat, distance: real, infrared: int, total: int, entry: int, exit: int)

  /**
   * Everything a step takes from outside: the distance reading, the infrared
   * draw, the entry/exit draws, whether the append to the store succeeds and
   * what the telemetry send gets back.
   */
  datatype StepInput = StepInput(distance: real, infrared: bool, draw: Draw, written: bool, reply: Response)

  /** The state threaded through the loop: the running count, the stored rows and the sends made. */
  datatype Sim = Sim(count: int, rows: seq<Row>, sent: seq<Delivery>)

  /** The conditions that end the process with exit status 1. */
  datatype Fatal = CannotInitialize | EmptyStore | CountOutOfBounds

  datatype Result<T> = Ok(value: T) | Failed(error: Fatal)

  function Bit(b: bool): int {
    if b then 1 else 0
  }

  /**
   * The timestamp of a step: the start time plus the step index times the step
   * length. It lies on the 30-minute grid from the start, and the step index
   * can be read back from it.
   */
  function Stamp(start: nat, step: nat): (t: nat)
    ensures start <= t
    ensures (t - start) % TimeStepMinutes == 0 && (t - start) / TimeStepMinutes == step
  {
    start + step * TimeStepMinutes
  }

  /** The bounds and 0/1 flags every generated row has. */
  predicate WellFormed(row: Row) {
    InRange(row.total) && 0 <= row.infrared <= 1 && 0 <= row.entry <= 1 && 0 <= row.exit <= 1
  }

  /**
   * field1..field5 of a reading send: a reading (never a forecast), whose
   * fields keep the bounds and 0/1 flags of a well-formed row.
   */
  function ReadingOf(row: Row): (p: Payload)
    ensures p.Reading?
    ensures WellFormed(row) ==>
              InRange(p.total) && 0 <= p.infrared <= 1 && 0 <= p.entry <= 1 && 0 <= p.exit <= 1
  {
    Reading(row.distance, row.infrared, row.total, row.entry, row.exit)
  }

  /**
   * One iteration of the generation loop. The store and the sends are only
   * appended to: a written step adds one row, stamped for this step, and one
   * send; a failed append adds neither. The count moves as `Step` says whether
   * or not the row is written, and stays in range.
   */
  function SimStep(start: nat, s: Sim, step: nat, input: StepInput): (r: Sim)
    ensures InRange(s.count) ==> InRange(r.count)
    ensures |r.rows| == |s.rows| + (if input.written then 1 else 0)
    ensures |r.sent| == |s.sent| + (if input.written then 1 else 0)
    ensures r.rows[..|s.rows|] == s.rows && r.sent[..|s.sent|] == s.sent
    ensures input.written ==> r.rows[|s.rows|].timestamp == Stamp(start, step)
    ensures input.written && InRange(s.count) ==> WellFormed(r.rows[|s.rows|])
  {
    var o := Step(s.count, input.draw);
    var row := Row(Stamp(start, step), input.distance, Bit(input.infrared), o.count, o.entry, o.exit);
    if input.written then
      Sim(o.count, s.rows + [row], s.sent + [Delivery(ReadingOf(row), Accepted(input.reply))])
    else
      Sim(o.count, s.rows, s.sent)
  }

  /**
   * The state after the given steps, counting from an empty room and an empty
   * store. The count and every stored row stay within bounds, and exactly one
   * send is made per stored row.
   */
  function Run(start: nat, inputs: seq<StepInput>): (s: Sim)
    ensures InRange(s.count)
    ensures |s.rows| == |s.sent| <= |inputs|
    ensures forall j :: 0 <= j < |s.rows| ==> WellFormed(s.rows[j])
    decreases |inputs|
  {
    if inputs == [] then Sim(0, [], [])
    else SimStep(start, Run(start, inputs[..|inputs| - 1]), |inputs| - 1, inputs[|inputs| - 1])
  }

  /**
   * The generation loop: initialize the store (a failure there is fatal), then
   * run DurationSteps steps. Each step applies the entry, then the exit, builds
   * its row, and on a successful append stores the row and sends it.
   */
  method Generate(start: nat, initialized: bool, inputs: seq<StepInput>) returns (r: Result<Sim>)
    requires |inputs| == DurationSteps
    ensures !initialized ==> r == Failed(CannotInitialize)
    ensures initialized ==> r == Ok(Run(start, inputs))
  {
    if !initialized {
      return Failed(CannotInitialize);
    }
    var peopleCount := 0;
    var rows: seq<Row> := [];
    var sent: seq<Delivery> := [];
    for step := 0 to DurationSteps
      invariant Sim(peopleCount, rows, sent) == Run(start, inputs[..step])
    {
      assert inputs[..step + 1][..step] == inputs[..step];
      ghost var before := Sim(peopleCount, rows, sent);
      var input := inputs[step];
      var timestamp := Stamp(start, step);
      var entryCount := 0;
      var exitCount := 0;
      if input.draw.enter && peopleCount < MaxPeople {
        peopleCount := peopleCount + 1;
        entryCount := 1;
      }
      if input.draw.leave && peopleCount > 0 {
        peopleCount := peopleCount - 1;
        exitCount := 1;
      }
      var row := Row(timestamp, input.distance, Bit(input.infrared), peopleCount, entryCount, exitCount);
      assert Run(start, inputs[..step + 1]) == SimStep(start, before, step, input);
      if !input.written {
        continue;
      }
      rows := rows + [row];
      sent := sent + [Delivery(ReadingOf(row), Accepted(input.reply))];
    }
    assert inputs[..DurationSteps] == inputs;
    return Ok(Sim(peopleCount, rows, sent));
  }

  lemma DurationIs48()
    ensures DurationSteps == 48
  {
  }

  /**
   * The reload of the store: an empty store is fatal, and so is any count
   * outside [0, MaxPeople]; otherwise the rows come back as written.
   */
  function Load(rows: seq<Row>): (r: Result<seq<Row>>)
    ensures r.Ok? <==> |rows| > 0 && forall j :: 0 <= j < |rows| ==> InRange(rows[j].total)
    ensures r.Ok? ==> r.value == rows
    ensures r == Failed(EmptyStore) <==> |rows| == 0
    ensures r != Failed(CannotInitialize)
  {
    if |rows| == 0 then Failed(EmptyStore)
    else if !(forall j :: 0 <= j < |rows| ==> InRange(rows[j].total)) then Failed(CountOutOfBounds)
    else Ok(rows)
  }

  // ---------------------------------------------------------------------------
  // An independent description of the store: the rows of exactly the steps
  // whose append succeeded, in step order, each built from the occupancy trace.

  function Draws(inputs: seq<StepInput>): (d: seq<Draw>)
    ensures |d| == |inputs|
  {
    seq(|inputs|, k requires 0 <= k < |inputs| => inputs[k].draw)
  }

  /** The indices of the steps whose append succeeded, in increasing order. */
  function WrittenSteps(inputs: seq<StepInput>): (ks: seq<nat>)
    ensures forall j :: 0 <= j < |ks| ==> ks[j] < |inputs| && inputs[ks[j]].written
    ensures forall i, j :: 0 <= i < j < |ks| ==> ks[i] < ks[j]
    ensures forall k :: 0 <= k < |inputs| && inputs[k].written ==> k in ks
    decreases |inputs|
  {
    if inputs == [] then []
    else
      var n := |inputs| - 1;
      WrittenSteps(inputs[..n]) + (if inputs[n].written then [n] else [])
  }

  /** The row step k records, read off the occupancy trace of all the steps. */
  function RowOf(start: nat, inputs: seq<StepInput>, k: nat): Row
    requires k < |inputs|
  {
    var o := Trace(0, Draws(inputs))[k];
    Row(Stamp(start, k), inputs[k].distance, Bit(inputs[k].infrared), o.count, o.entry, o.exit)
  }

  /** The row of step k does not depend on the steps after it. */
  lemma RowOfPrefix(start: nat, inputs: seq<StepInput>, m: nat, k: nat)
    requires k < m <= |inputs|
    ensures RowOf(start, inputs[..m], k) == RowOf(start, inputs, k)
  {
    var d, dm := Draws(inputs), Draws(inputs[..m]);
    assert dm[..k] == d[..k];
    TraceAt(0, d, k);
    TraceAt(0, dm, k);
  }

  /**
   * The loop's state is the occupancy after all steps, the rows of exactly the
   * written steps in step order, and one send per stored row carrying that
   * row's fields, judged by that step's reply.
   */
  lemma {:induction false} RunIsWrittenRows(start: nat, inputs: seq<StepInput>)
    ensures Run(start, inputs).count == CountAfter(0, Draws(inputs))
    ensures |Run(start, inputs).rows| == |WrittenSteps(inputs)|
    ensures forall j :: 0 <= j < |Run(start, inputs).rows| ==>
              Run(start, inputs).rows[j] == RowOf(start, inputs, WrittenSteps(inputs)[j])
    ensures forall j :: 0 <= j < |Run(start, inputs).sent| ==>
              Run(start, inputs).sent[j]
              == Delivery(ReadingOf(Run(start, inputs).rows[j]), Accepted(inputs[WrittenSteps(inputs)[j]].reply))
    decreases |inputs|
  {
    if inputs != [] {
      var n := |inputs| - 1;
      var pre := inputs[..n];
      RunIsWrittenRows(start, pre);
      var d := Draws(inputs);
      assert d[..n] == Draws(pre);
      TraceAt(0, d, n);
      var ks, ksPre := WrittenSteps(inputs), WrittenSteps(pre);
      var s, sPre := Run(start, inputs), Run(start, pre);
      forall j | 0 <= j < |sPre.rows|
        ensures s.rows[j] == RowOf(start, inputs, ks[j])
        ensures s.sent[j] == Delivery(ReadingOf(s.rows[j]), Accepted(inputs[ks[j]].reply))
      {
        RowOfPrefix(start, inputs, n, ksPre[j]);
      }
    }
  }

  /** Rows appear in step order: their timestamps strictly increase. */
  lemma RowsInTimeOrder(start: nat, inputs: seq<StepInput>)
    ensures forall i, j :: 0 <= i < j < |Run(start, inputs).rows| ==>
              Run(start, inputs).rows[i].timestamp < Run(start, inputs).rows[j].timestamp
  {
    RunIsWrittenRows(start, inputs);
  }

  /** When every append succeeds, step k is stored as row k, stamped start + 30k. */
  lemma {:induction false} AllWritten(start: nat, inputs: seq<StepInput>)
    requires forall k :: 0 <= k < |inputs| ==> inputs[k].written
    ensures |Run(start, inputs).rows| == |inputs|
    ensures forall k :: 0 <= k < |inputs| ==>
              Run(start, inputs).rows[k] == RowOf(start, inputs, k)
              && Run(start, inputs).rows[k].timestamp == start + k * TimeStepMinutes
    decreases |inputs|
  {
    if inputs != [] {
      var n := |inputs| - 1;
      AllWritten(start, inputs[..n]);
      RunIsWrittenRows(start, inputs);
      RunIsWrittenRows(start, inputs[..n]);
      forall k | 0 <= k < n
        ensures Run(start, inputs).rows[k] == RowOf(start, inputs, k)
      {
        RowOfPrefix(start, inputs, n, k);
      }
    }
  }

  // The column sums below add up store rows, as the daily Entry Count and
  // Exit Count sums do; Occupancy.Entries and Occupancy.Exits add up the
  // trace of all steps, which also holds the steps whose row was not stored.

  /** Sum of the Entry Count column. */
  function EntryColumn(rows: seq<Row>): int {
    if rows == [] then 0 else EntryColumn(rows[..|rows| - 1]) + rows[|rows| - 1].entry
  }

  /** Sum of the Exit Count column. */
  function ExitColumn(rows: seq<Row>): int {
    if rows == [] then 0 else ExitColumn(rows[..|rows| - 1]) + rows[|rows| - 1].exit
  }

  /** When every append succeeds, the final count is the Entry Count column's sum minus the Exit Count column's. */
  lemma {:induction false} FullStoreBalances(start: nat, inputs: seq<StepInput>)
    requires forall k :: 0 <= k < |inputs| ==> inputs[k].written
    ensures Run(start, inputs).count == EntryColumn(Run(start, inputs).rows) - ExitColumn(Run(start, inputs).rows)
    decreases |inputs|
  {
    if inputs != [] {
      var rows := Run(start, inputs).rows;
      FullStoreBalances(start, inputs[..|inputs| - 1]);
      assert rows[..|rows| - 1] == Run(start, inputs[..|inputs| - 1]).rows;
    }
  }

  /** Over all steps, stored or not, the final count is total entries minus total exits. */
  lemma FinalCountBalances(start: nat, inputs: seq<StepInput>)
    ensures Run(start, inputs).count
            == Entries(Trace(0, Draws(inputs))) - Exits(Trace(0, Draws(inputs)))
  {
    RunIsWrittenRows(start, inputs);
    FromEmpty(Draws(inputs));
  }

  /**
   * The reload after generation never fails the bounds check; it succeeds
   * exactly when at least one append succeeded, and otherwise stops on the empty store.
   */
  lemma LoadAfterRun(start: nat, inputs: seq<StepInput>)
    ensures Load(Run(start, inputs).rows) != Failed(CountOutOfBounds)
    ensures Load(Run(start, inputs).rows).Ok? <==> exists k :: 0 <= k < |inputs| && inputs[k].written
    ensures Load(Run(start, inputs).rows).Ok? ==> Load(Run(start, inputs).rows).value == Run(start, inputs).rows
  {
    StoredIffWritten(start, inputs);
  }

  /** The store is non-empty exactly when some append succeeded. */
  lemma {:induction false} StoredIffWritten(start: nat, inputs: seq<StepInput>)
    ensures |Run(start, inputs).rows| > 0 <==> exists k :: 0 <= k < |inputs| && inputs[k].written
    decreases |inputs|
  {
    if inputs != [] {
      var n := |inputs| - 1;
      var pre := inputs[..n];
      StoredIffWritten(start, pre);
      if exists k :: 0 <= k < n && pre[k].written {
        var k :| 0 <= k < n && pre[k].written;
        assert inputs[k].written;
      }
      if exists k :: 0 <= k < |inputs| && inputs[k].written {
        var k :| 0 <= k < |inputs| && inputs[k].written;
        if k < n {
          assert pre[k].written;
        }
      }
    }
  }

  /**
   * A full day with every append succeeding: 48 rows, the last one stamped
   * 23.5 hours after the start, a reload that succeeds, and a final count in range.
   */
  lemma FullDay(start: nat, inputs: seq<StepInput>)
    requires |inputs| == DurationSteps
    requires forall k :: 0 <= k < |inputs| ==> inputs[k].written
    ensures |Run(start, inputs).rows| == 48
    ensures Run(start, inputs).rows[47].timestamp == start + 1410
    ensures Load(Run(start, inputs).rows) == Ok(Run(start, inputs).rows)
    ensures InRange(Run(start, inputs).count)
  {
    AllWritten(start, inputs);
    LoadAfterRun(start, inputs);
    assert inputs[0].written;
  }
}
